/** The keyed list update that the compiler emits for `zen-for`: one run of the effect brings the siblings after the
    placeholder in line with the list, moving, reusing, creating and disposing nodes in place. */
module KeyedList {
  import opened Prelude
  import opened OrderedMaps

  type Node = nat

  /** `disposable`: `processChildren` returned a teardown function for the clone. */
  datatype Entry<T> = Entry(node: Node, item: T, index: nat, disposable: bool)

  // ---- the specification ---------------------------------------------------------------------

  /** The distinct keys, ordered by their last occurrence. */
  function LastOrder<K(==, !new)>(keys: seq<K>): (r: seq<K>)
    ensures forall k :: k in r <==> k in keys
  {
    if keys == [] then []
    else
      var k, rest := Last(keys), Front(keys);
      assert keys == rest + [k];
      Minus(LastOrder(rest), {k}) + [k]
  }

  function LastIndex<K(==)>(keys: seq<K>, k: K): (i: nat)
    requires k in keys
    ensures i < |keys| && keys[i] == k
    ensures forall j :: i < j < |keys| ==> keys[j] != k
  {
    if Last(keys) == k then |keys| - 1
    else
      assert keys == Front(keys) + [Last(keys)];
      LastIndex(Front(keys), k)
  }

  lemma {:induction false} LastOrderDistinct<K(!new)>(keys: seq<K>)
    ensures Distinct(LastOrder(keys))
  {
    if keys != [] {
      var k, rest := Last(keys), Front(keys);
      LastOrderDistinct(rest);
      MinusDistinct(LastOrder(rest), {k});
    }
  }

  /** The order is the order of the last occurrences: earlier in it means seen last earlier in the list. */
  lemma {:induction false} LastOrderIsByLastIndex<K(!new)>(keys: seq<K>, i: nat, j: nat)
    requires i < j < |LastOrder(keys)|
    ensures LastIndex(keys, LastOrder(keys)[i]) < LastIndex(keys, LastOrder(keys)[j])
  {
    var k, rest := Last(keys), Front(keys);
    var r := Minus(LastOrder(rest), {k});
    assert LastOrder(keys) == r + [k];
    assert r[i] in LastOrder(rest) && r[i] in rest && r[i] != k;
    if j < |r| {
      assert r[j] in LastOrder(rest) && r[j] in rest && r[j] != k;
      var i', j' := MinusKeepsOrder(LastOrder(rest), {k}, i, j);
      LastOrderIsByLastIndex(rest, i', j');
    }
  }

  lemma {:induction false} MinusKeepsOrder<T(!new)>(s: seq<T>, xs: set<T>, i: nat, j: nat) returns (i': nat, j': nat)
    requires i < j < |Minus(s, xs)|
    ensures i' < j' < |s| && s[i'] == Minus(s, xs)[i] && s[j'] == Minus(s, xs)[j]
  {
    if s[0] in xs {
      i', j' := MinusKeepsOrder(s[1..], xs, i, j);
      i', j' := i' + 1, j' + 1;
    } else if i == 0 {
      var x := Minus(s, xs)[j];
      assert x == Minus(s[1..], xs)[j - 1];
      assert x in s[1..];
      j' :| 0 <= j' < |s[1..]| && s[1..][j'] == x;
      i', j' := 0, j' + 1;
    } else {
      i', j' := MinusKeepsOrder(s[1..], xs, i - 1, j - 1);
      i', j' := i' + 1, j' + 1;
    }
  }

  function NodesOf<K(==), T>(ks: seq<K>, table: map<K, Entry<T>>): (r: seq<Node>)
    requires forall k :: k in ks ==> k in table
    ensures |r| == |ks| && forall i :: 0 <= i < |ks| ==> r[i] == table[ks[i]].node
  {
    seq(|ks|, i requires 0 <= i < |ks| => table[ks[i]].node)
  }

  function NodeSet<K(==), T>(table: map<K, Entry<T>>): set<Node> { set k | k in table :: table[k].node }

  /** The nodes of the entries under `ks`. */
  function Dead<K(==), T>(table: map<K, Entry<T>>, ks: set<K>): set<Node> {
    set k | k in ks && k in table :: table[k].node
  }

  /** Those of them that carry a teardown. */
  function Torn<K(==), T>(table: map<K, Entry<T>>, ks: set<K>): set<Node> {
    set k | k in ks && k in table && table[k].disposable :: table[k].node
  }

  ghost predicate Injective<K, T>(table: map<K, Entry<T>>) {
    forall j, k :: j in table && k in table && table[j].node == table[k].node ==> j == k
  }

  /** The siblings once the nodes `seg` stand right behind the placeholder and nowhere else. */
  function Arranged(before: seq<Node>, placeholder: Node, seg: seq<Node>, after: seq<Node>): seq<Node> {
    Minus(before, Elements(seg)) + [placeholder] + seg + Minus(after, Elements(seg))
  }

  // ---- the parent's child list -----------------------------------------------------------------

  function IndexOf<T(==)>(s: seq<T>, x: T): (i: nat)
    requires x in s
    ensures i < |s| && s[i] == x && x !in s[..i]
  {
    if s[0] == x then 0 else 1 + IndexOf(s[1..], x)
  }

  function NextSibling(s: seq<Node>, x: Node): Option<Node>
    requires x in s
  {
    if IndexOf(s, x) + 1 < |s| then Some(s[IndexOf(s, x) + 1]) else None
  }

  /** `parent.insertBefore(x, ref)`: `x` leaves its old place, if it has one here. */
  function InsertBefore(s: seq<Node>, x: Node, ref: Option<Node>): seq<Node>
    requires ref.Some? ==> ref.value in s && ref.value != x
  {
    var t := Minus(s, {x});
    if ref.None? then t + [x] else t[..IndexOf(t, ref.value)] + [x] + t[IndexOf(t, ref.value)..]
  }

  lemma {:induction false} IndexAfter<T(!new)>(a: seq<T>, x: T, b: seq<T>)
    requires x !in a
    ensures IndexOf(a + [x] + b, x) == |a|
  {
    if a != [] {
      assert (a + [x] + b)[1..] == a[1..] + [x] + b;
      IndexAfter(a[1..], x, b);
    }
  }

  lemma DistinctParts<T(!new)>(a: seq<T>, b: seq<T>)
    requires Distinct(a + b)
    ensures Distinct(a) && Distinct(b) && forall x :: x in a ==> x !in b
  {
    var s := a + b;
    forall i, j | 0 <= i < j < |a| ensures a[i] != a[j] { assert s[i] != s[j]; }
    forall i, j | 0 <= i < j < |b| ensures b[i] != b[j] { assert s[|a| + i] != s[|a| + j]; }
    forall x | x in a ensures x !in b {
      var i :| 0 <= i < |a| && a[i] == x;
      forall j | 0 <= j < |b| ensures b[j] != x { assert s[i] != s[|a| + j]; }
    }
  }

  lemma NextAfter(left: seq<Node>, right: seq<Node>)
    requires left != [] && Distinct(left + right)
    ensures Last(left) in left + right
    ensures NextSibling(left + right, Last(left)) == if right == [] then None else Some(right[0])
  {
    var init, prev := Front(left), Last(left);
    DistinctParts(left, right);
    assert left == init + [prev];
    DistinctParts(init, [prev]);
    assert left + right == init + [prev] + right;
    IndexAfter(init, prev, right);
  }

  lemma PlaceStay(left: seq<Node>, x: Node, tail: seq<Node>)
    requires Distinct(left + ([x] + tail))
    ensures left + ([x] + tail) == Minus(left, {x}) + [x] + Minus([x] + tail, {x})
  {
    DistinctParts(left, [x] + tail);
    DistinctParts([x], tail);
    MinusNothing(left, {x});
    MinusNothing(tail, {x});
    MinusConcat([x], tail, {x});
    assert Minus([x], {x}) == [];
  }

  lemma PlaceMove(left: seq<Node>, ref: Node, tail: seq<Node>, x: Node)
    requires Distinct(left + ([ref] + tail)) && ref != x
    ensures ref in left + ([ref] + tail)
    ensures InsertBefore(left + ([ref] + tail), x, Some(ref)) == Minus(left, {x}) + [x] + Minus([ref] + tail, {x})
  {
    DistinctParts(left, [ref] + tail);
    var l, r := Minus(left, {x}), Minus(tail, {x});
    MinusConcat(left, [ref] + tail, {x});
    MinusConcat([ref], tail, {x});
    assert Minus([ref], {x}) == [ref];
    MoveBefore(l, ref, r, x);
  }

  /** Placing `x` right behind the last node of `left`, whether it has to move or is there already. */
  lemma PlaceBehind(left: seq<Node>, right: seq<Node>, x: Node, next: Option<Node>)
    requires Distinct(left + right)
    requires next == if right == [] then None else Some(right[0])
    ensures next.Some? ==> next.value in left + right
    ensures (if next == Some(x) then left + right else InsertBefore(left + right, x, next))
            == Minus(left, {x}) + [x] + Minus(right, {x})
  {
    if right == [] {
      assert left + right == left;
    } else {
      assert right == [right[0]] + right[1..];
      if right[0] == x { PlaceStay(left, x, right[1..]); } else { PlaceMove(left, right[0], right[1..], x); }
    }
  }

  lemma MoveBefore(l: seq<Node>, ref: Node, r: seq<Node>, x: Node)
    requires ref !in l
    ensures var t := l + ([ref] + r);
      ref in t && t[..IndexOf(t, ref)] + [x] + t[IndexOf(t, ref)..] == l + [x] + ([ref] + r)
  {
    assert l + ([ref] + r) == l + [ref] + r;
    IndexAfter(l, ref, r);
  }

  lemma {:induction false} MinusAgree<T(!new)>(s: seq<T>, xs: set<T>, ys: set<T>)
    requires forall x :: x in s ==> (x in xs <==> x in ys)
    ensures Minus(s, xs) == Minus(s, ys)
  {
    if s != [] { MinusAgree(s[1..], xs, ys); }
  }

  // ---- one run, step by step ---------------------------------------------------------------------

  lemma NodesOfConcat<K, T>(a: seq<K>, b: seq<K>, table: map<K, Entry<T>>)
    requires (forall k :: k in a ==> k in table) && (forall k :: k in b ==> k in table)
    ensures NodesOf(a + b, table) == NodesOf(a, table) + NodesOf(b, table)
  {
  }

  lemma NodesOfAgree<K, T>(ks: seq<K>, t: map<K, Entry<T>>, u: map<K, Entry<T>>)
    requires forall k :: k in ks ==> k in t && k in u && t[k].node == u[k].node
    ensures NodesOf(ks, t) == NodesOf(ks, u)
  {
  }

  lemma {:induction false} NodesOfMinus<K(!new), T>(ks: seq<K>, table: map<K, Entry<T>>, k: K)
    requires (forall x :: x in ks ==> x in table) && k in table && Injective(table)
    ensures NodesOf(Minus(ks, {k}), table) == Minus(NodesOf(ks, table), {table[k].node})
  {
    if ks != [] {
      var first, rest := [ks[0]], ks[1..];
      assert ks == first + rest && NodesOf(first, table) == [table[ks[0]].node];
      NodesOfConcat(first, rest, table);
      NodesOfMinus(rest, table, k);
      assert NodesOf(ks, table)[1..] == NodesOf(rest, table);
      if ks[0] != k { NodesOfConcat(first, Minus(rest, {k}), table); }
    }
  }

  /** The segment grows by the next key of the list: its node moves to, or enters at, the end. */
  lemma SegmentStep<K(!new), T>(keys: seq<K>, i: nat, t: map<K, Entry<T>>, u: map<K, Entry<T>>, x: Node)
    requires i < |keys| && Injective(u) && keys[i] in u && u[keys[i]].node == x
    requires forall k :: k in t ==> k in u && t[k].node == u[k].node
    requires forall k :: k in keys[..i] ==> k in t
    ensures forall k :: k in keys[..i + 1] ==> k in u
    ensures NodesOf(LastOrder(keys[..i + 1]), u) == Minus(NodesOf(LastOrder(keys[..i]), t), {x}) + [x]
  {
    var k := keys[i];
    assert keys[..i + 1] == keys[..i] + [k];
    assert keys[..i + 1][..i] == keys[..i];
    var order := LastOrder(keys[..i]);
    assert LastOrder(keys[..i + 1]) == Minus(order, {k}) + [k];
    NodesOfAgree(order, t, u);
    NodesOfMinus(order, u, k);
    NodesOfConcat(Minus(order, {k}), [k], u);
    assert NodesOf([k], u) == [x];
  }

  lemma MinusAround(a: seq<Node>, placeholder: Node, b: seq<Node>, x: Node)
    requires x != placeholder
    ensures Minus(a + [placeholder] + b, {x}) == Minus(a, {x}) + [placeholder] + Minus(b, {x})
  {
    MinusConcat(a + [placeholder], b, {x});
    MinusConcat(a, [placeholder], {x});
    assert Minus([placeholder], {x}) == [placeholder];
  }

  lemma LastPlaced(a: seq<Node>, placeholder: Node, seg: seq<Node>)
    ensures a + [placeholder] + seg != []
    ensures Last(a + [placeholder] + seg) == if seg == [] then placeholder else Last(seg)
  {
  }

  lemma ArrangeStep(before: seq<Node>, placeholder: Node, seg: seq<Node>, after: seq<Node>, x: Node)
    requires x != placeholder
    ensures Minus(Minus(before, Elements(seg)) + [placeholder] + seg, {x}) + [x] +
      Minus(Minus(after, Elements(seg)), {x})
            == Arranged(before, placeholder, Minus(seg, {x}) + [x], after)
  {
    var xs, seg' := Elements(seg), Minus(seg, {x}) + [x];
    assert Elements(seg') == xs + {x};
    MinusMinus(before, xs, {x});
    MinusMinus(after, xs, {x});
    MinusAround(Minus(before, xs), placeholder, seg, x);
    var l, r := Minus(before, xs + {x}) + [placeholder], Minus(after, xs + {x});
    assert (l + Minus(seg, {x})) + [x] == l + seg';
  }

  lemma PlacedDistinct(left: seq<Node>, right: seq<Node>, x: Node)
    requires Distinct(left + right)
    ensures Distinct(Minus(left, {x}) + [x] + Minus(right, {x}))
  {
    DistinctParts(left, right);
    MinusDistinct(left, {x});
    MinusDistinct(right, {x});
    DistinctConcat(Minus(left, {x}), [x]);
    DistinctConcat(Minus(left, {x}) + [x], Minus(right, {x}));
  }

  lemma DistinctConcat<T(!new)>(a: seq<T>, b: seq<T>)
    requires Distinct(a) && Distinct(b) && forall x :: x in a ==> x !in b
    ensures Distinct(a + b)
  {
    var s := a + b;
    forall i, j | 0 <= i < j < |s| ensures s[i] != s[j] {
      if i < |a| <= j { assert a[i] in a && b[j - |a|] in b; }
    }
  }

  /** When the leftovers are gone, only the segment and the foreign siblings remain. */
  lemma ArrangedWithoutDead(before: seq<Node>, placeholder: Node, seg: seq<Node>, after: seq<Node>, dead: set<Node>,
                            items: set<Node>)
    requires placeholder !in dead && Elements(seg) !! dead
    requires forall x :: x in before || x in after ==> (x in Elements(seg) + dead <==> x in items)
    ensures Minus(Arranged(before, placeholder, seg, after), dead)
            == Minus(before, items) + [placeholder] + seg + Minus(after, items)
  {
    var xs := Elements(seg);
    MinusConcat(Minus(before, xs) + [placeholder] + seg, Minus(after, xs), dead);
    MinusConcat(Minus(before, xs) + [placeholder], seg, dead);
    MinusConcat(Minus(before, xs), [placeholder], dead);
    assert Minus([placeholder], dead) == [placeholder];
    MinusNothing(seg, dead);
    MinusMinus(before, xs, dead);
    MinusMinus(after, xs, dead);
    MinusAgree(before, xs + dead, items);
    MinusAgree(after, xs + dead, items);
  }

  /** The nodes that have to be torn down by now: those with a teardown that were created and are in use no more. */
  function Gone<K(==), T>(bound: Node -> bool, items: OrderedMap<K, Entry<T>>, created: set<Node>): set<Node> {
    set x | x in created && bound(x) && x !in NodeSet(items.table)
  }

  /** Exactly the nodes for which `processChildren` returned a teardown carry one. */
  ghost predicate Teardowns<K(!new), T>(table: map<K, Entry<T>>, bound: Node -> bool) {
    forall k :: k in table ==> table[k].disposable == bound(table[k].node)
  }

  /** What holds of the items map between runs: one created node per entry, never the placeholder, with a teardown
      exactly if the node has one; and the teardowns run so far, once each, are those of the nodes that left. */
  ghost predicate ItemsOk<K(!new), T>(placeholder: Node, bound: Node -> bool, items: OrderedMap<K, Entry<T>>,
                                      created: set<Node>, nextNode: Node, torn: seq<Node>) {
    && WellFormed(items) && Injective(items.table)
    && placeholder < nextNode && placeholder !in created
    && (forall x :: x in created ==> x < nextNode)
    && (forall k :: k in items.table ==> items.table[k].node in created)
    && Teardowns(items.table, bound)
    && Distinct(torn) && Elements(torn) == Gone(bound, items, created)
  }

  lemma RebindOk<K(!new), T>(placeholder: Node, bound: Node -> bool, items: OrderedMap<K, Entry<T>>,
                             created: set<Node>, nextNode: Node, torn: seq<Node>, k: K, e: Entry<T>)
    requires ItemsOk(placeholder, bound, items, created, nextNode, torn) && k in items.table
    requires e.node == items.table[k].node && e.disposable == items.table[k].disposable
    ensures ItemsOk(placeholder, bound, Put(items, k, e), created, nextNode, torn)
  {
    var after := items.table[k := e];
    assert NodeSet(after) == NodeSet(items.table) by {
      forall x | x in NodeSet(items.table) ensures x in NodeSet(after) {
        var j :| j in items.table && items.table[j].node == x;
        assert after[j].node == x;
      }
    }
  }

  lemma NewEntryOk<K(!new), T>(placeholder: Node, bound: Node -> bool, items: OrderedMap<K, Entry<T>>,
                               created: set<Node>, nextNode: Node, torn: seq<Node>, k: K, e: Entry<T>)
    requires ItemsOk(placeholder, bound, items, created, nextNode, torn) && k !in items.table
    requires e.node == nextNode && e.disposable == bound(nextNode)
    ensures ItemsOk(placeholder, bound, Put(items, k, e), created + {nextNode}, nextNode + 1, torn)
  {
    var after := items.table[k := e];
    assert after[k].node == nextNode;
    assert NodeSet(after) == NodeSet(items.table) + {nextNode} by {
      forall x | x in NodeSet(items.table) ensures x in NodeSet(after) {
        var j :| j in items.table && items.table[j].node == x;
        assert after[j].node == x;
      }
    }
  }

  lemma DropEntryOk<K(!new), T>(placeholder: Node, bound: Node -> bool, items: OrderedMap<K, Entry<T>>,
                                created: set<Node>, nextNode: Node, torn: seq<Node>, k: K)
    requires ItemsOk(placeholder, bound, items, created, nextNode, torn) && k in items.table
    ensures ItemsOk(placeholder, bound, Drop(items, {k}), created, nextNode,
                    torn + if items.table[k].disposable then [items.table[k].node] else [])
  {
    var x, left := items.table[k].node, items.table - {k};
    var more := if items.table[k].disposable then [x] else [];
    DropWellFormed(items, {k});
    assert x in NodeSet(items.table);
    assert forall y :: y in torn ==> y in Elements(torn);
    DistinctConcat(torn, more);
    assert NodeSet(left) == NodeSet(items.table) - {x} by {
      forall y | y in NodeSet(items.table) - {x} ensures y in NodeSet(left) {
        var j :| j in items.table && items.table[j].node == y;
        assert left[j].node == y;
      }
    }
    assert Elements(torn + more) == Elements(torn) + Elements(more);
  }

  /** Dropping the leftovers keeps what the first loop established about the keys of the list. */
  lemma SurvivorsKeep<K(!new), T>(t: map<K, Entry<T>>, u: map<K, Entry<T>>, list: seq<T>, keys: seq<K>,
                                  t0: map<K, Entry<T>>, n0: Node)
    requires |keys| == |list| && Bound(t, list, keys, t0, n0) && u == t - (t.Keys - Elements(keys))
    ensures u.Keys == Elements(keys)
    ensures NodesOf(LastOrder(keys), u) == NodesOf(LastOrder(keys), t)
    ensures forall k :: k in u ==> ShowsLast(u, list, keys, k)
    ensures forall k :: k in u ==> if k in t0 then u[k].node == t0[k].node else n0 <= u[k].node
  {
  }

  /** The final child list. */
  lemma FinalSiblings<K(!new), T>(before: seq<Node>, placeholder: Node, after: seq<Node>, keys: seq<K>,
                                  t0: map<K, Entry<T>>, t1: map<K, Entry<T>>, n0: Node, dead: set<Node>)
    requires Injective(t1) && t1.Keys == t0.Keys + Elements(keys)
    requires forall k :: k in t0 ==> t1[k].node == t0[k].node
    requires forall k :: k in t0 && k !in keys ==> t1[k] == t0[k]
    requires forall k :: k in t1 && k !in t0 ==> n0 <= t1[k].node
    requires forall x :: x in before || x in after ==> x < n0
    requires placeholder !in NodeSet(t1) && dead == Dead(t1, t1.Keys - Elements(keys))
    ensures Minus(Arranged(before, placeholder, NodesOf(LastOrder(keys), t1), after), dead)
            == Minus(before, NodeSet(t0)) + [placeholder] + NodesOf(LastOrder(keys), t1) + Minus(after, NodeSet(t0))
    ensures Torn(t1, t1.Keys - Elements(keys)) == Torn(t0, t0.Keys - Elements(keys))
  {
    var seg := NodesOf(LastOrder(keys), t1);
    SegmentNodes(keys, t1);
    LeftoversAreOld(t0, t1, Elements(keys), before, after, seg, n0);
    ArrangedWithoutDead(before, placeholder, seg, after, dead, NodeSet(t0));
  }

  lemma ProperSiblings(before: seq<Node>, placeholder: Node, seg: seq<Node>, after: seq<Node>, own: set<Node>, n: Node)
    requires placeholder < n && (forall x :: x in before || x in after || x in seg ==> x < n)
    ensures var final := Minus(before, own) + [placeholder] + seg + Minus(after, own);
      placeholder in final && forall x :: x in final ==> x < n
  {
  }

  lemma SegmentNodes<K(!new), T>(keys: seq<K>, t: map<K, Entry<T>>)
    requires forall k :: k in keys ==> k in t
    ensures Elements(NodesOf(LastOrder(keys), t)) == Dead(t, Elements(keys))
  {
    var order, nodes := LastOrder(keys), NodesOf(LastOrder(keys), t);
    forall x | x in Dead(t, Elements(keys)) ensures x in nodes {
      var k :| k in Elements(keys) && k in t && t[k].node == x;
      var i :| 0 <= i < |order| && order[i] == k;
      assert nodes[i] == x;
    }
  }

  /** The entry of `k` is as the last occurrence of `k` in the list leaves it. */
  ghost predicate ShowsLast<K(!new), T>(table: map<K, Entry<T>>, list: seq<T>, keys: seq<K>, k: K)
    requires k in keys && |keys| <= |list| && k in table
  {
    table[k].index == LastIndex(keys, k) && table[k].item == list[LastIndex(keys, k)]
  }

  /** What table `t0` has become after binding the keys `done`, with new nodes from `n0` on. */
  ghost predicate Bound<K(!new), T>(table: map<K, Entry<T>>, list: seq<T>, done: seq<K>, t0: map<K, Entry<T>>,
                                    n0: Node)
  {
    && |done| <= |list|
    && (forall k :: k in table <==> k in t0 || k in done)
    && (forall k :: k in t0 ==> table[k].node == t0[k].node)
    && (forall k :: k in t0 && k !in done ==> table[k] == t0[k])
    && (forall k :: k in table && k !in t0 ==> n0 <= table[k].node)
    && (forall k :: k in done ==> ShowsLast(table, list, done, k))
  }

  lemma BoundStep<K(!new), T>(t: map<K, Entry<T>>, e: Entry<T>, u: map<K, Entry<T>>, list: seq<T>, keys: seq<K>,
                              i: nat, t0: map<K, Entry<T>>, n0: Node)
    requires i < |list| == |keys| && Bound(t, list, keys[..i], t0, n0)
    requires u == t[keys[i] := e] && e.item == list[i] && e.index == i
    requires if keys[i] in t then e.node == t[keys[i]].node else n0 <= e.node
    ensures Bound(u, list, keys[..i + 1], t0, n0)
  {
    KeysStep(keys, i);
    var done := keys[..i + 1];
    forall k | k in done ensures ShowsLast(u, list, done, k) {
      if k != keys[i] { assert ShowsLast(t, list, keys[..i], k); }
    }
  }

  /** What one round of the first loop does to table, segment and the set of nodes in use. */
  lemma RoundStep<K(!new), T>(t: map<K, Entry<T>>, e: Entry<T>, u: map<K, Entry<T>>, list: seq<T>, keys: seq<K>,
                              i: nat, t0: map<K, Entry<T>>, n0: Node)
    requires i < |list| == |keys| && Bound(t, list, keys[..i], t0, n0) && Injective(u)
    requires u == t[keys[i] := e] && e.item == list[i] && e.index == i
    requires if keys[i] in t then e.node == t[keys[i]].node else n0 <= e.node
    ensures Bound(u, list, keys[..i + 1], t0, n0)
    ensures NodesOf(LastOrder(keys[..i + 1]), u) == Minus(NodesOf(LastOrder(keys[..i]), t), {e.node}) + [e.node]
    ensures NodeSet(t) + {e.node} <= NodeSet(u)
  {
    BoundStep(t, e, u, list, keys, i, t0, n0);
    SegmentStep(keys, i, t, u, e.node);
    NodeSetGrows(t, u, keys[i]);
  }

  class ForEffect<T, K(==, !new)> {
    const placeholder: Node
    const keyOf: (T, nat) -> K
    const bound: Node -> bool
    var siblings: seq<Node>
    var items: OrderedMap<K, Entry<T>>
    var nextNode: Node
    var torn: seq<Node>
    ghost var created: set<Node>

    ghost predicate ItemsValid()
      reads this
    {
      ItemsOk(placeholder, bound, items, created, nextNode, torn)
    }

    /** Nothing is assumed about where the siblings stand: other code may have moved or removed any of them. */
    ghost predicate Valid()
      reads this
    {
      ItemsValid() && Distinct(siblings) && placeholder in siblings && forall x :: x in siblings ==> x < nextNode
    }

    /** The emitted prologue appends the placeholder to the parent's present children. */
    constructor (keyOf: (T, nat) -> K, bound: Node -> bool, placeholder: Node, children: seq<Node>, nextNode: Node)
      requires Distinct(children) && placeholder !in children && placeholder < nextNode
      requires forall x :: x in children ==> x < nextNode
      ensures Valid() && items.keys == [] && torn == [] && created == {} && siblings == children + [placeholder]
    {
      this.keyOf, this.bound, this.placeholder, this.nextNode := keyOf, bound, placeholder, nextNode;
      items, torn, siblings := Empty(), [], children + [placeholder];
      created := {};
    }

    /** Moves `node` right behind `prev`, unless it stands there already. */
    method Place(node: Node, prev: Node, ghost left: seq<Node>, ghost right: seq<Node>)
      requires Distinct(siblings) && siblings == left + right && left != [] && Last(left) == prev
      modifies this`siblings
      ensures siblings == Minus(left, {node}) + [node] + Minus(right, {node}) && Distinct(siblings)
    {
      NextAfter(left, right);
      var next := NextSibling(siblings, prev);
      PlaceBehind(left, right, node, next);
      PlacedDistinct(left, right, node);
      if next != Some(node) {
        siblings := InsertBefore(siblings, node, next);
      }
    }

    ghost function NodeFor(key: K): Node
      reads this
    {
      if key in items.table then items.table[key].node else nextNode
    }

    /** A known key keeps its node and its teardown, a new one gets a new node and the teardown that node has. */
    ghost function EntryFor(key: K, item: T, i: nat): Entry<T>
      reads this
    {
      Entry(NodeFor(key), item, i, if key in items.table then items.table[key].disposable else bound(nextNode))
    }

    /** The entry of `key`, refreshed, or a fresh one. */
    method Bind(key: K, item: T, i: nat) returns (node: Node)
      requires ItemsValid()
      modifies this`items, this`nextNode, this`created
      ensures ItemsValid() && old(nextNode) <= nextNode
      ensures node == old(NodeFor(key)) && items == Put(old(items), key, old(EntryFor(key, item, i)))
      ensures created == old(created) + {node}
    {
      if key in items.table {
        var entry := items.table[key];
        node := entry.node;
        RebindOk(placeholder, bound, items, created, nextNode, torn, key, entry.(item := item, index := i));
        items := Put(items, key, entry.(item := item, index := i));
      } else {
        node := nextNode;
        NewEntryOk(placeholder, bound, items, created, nextNode, torn, key, Entry(node, item, i, bound(node)));
        items := Put(items, key, Entry(node, item, i, bound(node)));
        created, nextNode := created + {node}, nextNode + 1;
      }
    }

    function Keys(list: seq<T>): (r: seq<K>)
      ensures |r| == |list| && forall i :: 0 <= i < |list| ==> r[i] == keyOf(list[i], i)
    {
      seq(|list|, i requires 0 <= i < |list| => keyOf(list[i], i))
    }

    /** One round of the first loop: bind the element's key, then put its node behind the previous one. */
    method PlaceNext(list: seq<T>, i: nat, prev: Node, ghost before: seq<Node>, ghost after: seq<Node>,
                     ghost seg: seq<Node>)
      returns (node: Node)
      requires i < |list| && ItemsValid() && Distinct(siblings)
      requires siblings == Arranged(before, placeholder, seg, after)
      requires prev == if seg == [] then placeholder else Last(seg)
      modifies this`siblings, this`items, this`nextNode, this`created
      ensures ItemsValid() && Distinct(siblings) && old(nextNode) <= nextNode
      ensures siblings == Arranged(before, placeholder, Minus(seg, {node}) + [node], after)
      ensures node == old(NodeFor(keyOf(list[i], i)))
      ensures items == Put(old(items), keyOf(list[i], i), old(EntryFor(keyOf(list[i], i), list[i], i)))
      ensures created == old(created) + {node}
    {
      node := Bind(keyOf(list[i], i), list[i], i);
      ghost var left, right := Minus(before, Elements(seg)), Minus(after, Elements(seg));
      ArrangeStep(before, placeholder, seg, after, node);
      LastPlaced(left, placeholder, seg);
      Place(node, prev, left + [placeholder] + seg, right);
    }

    /** The first loop: every list element gets its node, behind the one before it. */
    method PlaceItems(list: seq<T>, ghost before: seq<Node>, ghost after: seq<Node>)
      requires Valid() && siblings == before + [placeholder] + after
      modifies this`siblings, this`items, this`nextNode, this`created
      ensures ItemsValid() && Distinct(siblings) && old(nextNode) <= nextNode
      ensures Bound(items.table, list, Keys(list), old(items).table, old(nextNode))
      ensures siblings == Arranged(before, placeholder, NodesOf(LastOrder(Keys(list)), items.table), after)
      ensures old(created) <= created <= old(created) + NodeSet(items.table)
    {
      ghost var keys, t0, n0, c0, seg := Keys(list), items.table, nextNode, created, [];
      var prev := placeholder;
      ArrangedNothing(before, placeholder, after);
      for i := 0 to |list|
        invariant ItemsValid() && Distinct(siblings) && n0 <= nextNode
        invariant Bound(items.table, list, keys[..i], t0, n0)
        invariant c0 <= created <= c0 + NodeSet(items.table)
        invariant seg == NodesOf(LastOrder(keys[..i]), items.table)
        invariant siblings == Arranged(before, placeholder, seg, after)
        invariant prev == if seg == [] then placeholder else Last(seg)
      {
        ghost var t, c, e := items.table, created, EntryFor(keys[i], list[i], i);
        prev := PlaceNext(list, i, prev, before, after, seg);
        RoundStep(t, e, items.table, list, keys, i, t0, n0);
        assert created == c + {prev};
        seg := Minus(seg, {prev}) + [prev];
      }
      assert keys[..|list|] == keys;
    }

    /** The entries under `gone` have been dropped from map `m`, their nodes from `s0`, their teardowns run since
        `torn0`. */
    ghost predicate HasDropped(m: OrderedMap<K, Entry<T>>, s0: seq<Node>, torn0: seq<Node>, gone: set<K>)
      reads this
    {
      && items == Drop(m, gone) && siblings == Minus(s0, Dead(m.table, gone))
      && torn0 <= torn && Elements(torn) == Elements(torn0) + Torn(m.table, gone)
    }

    method DiscardNext(key: K, ghost m: OrderedMap<K, Entry<T>>, ghost s0: seq<Node>, ghost torn0: seq<Node>,
                       ghost gone: set<K>)
      requires ItemsValid() && Distinct(siblings) && HasDropped(m, s0, torn0, gone)
      requires key in m.table && key !in gone
      modifies this`siblings, this`items, this`torn
      ensures ItemsValid() && Distinct(siblings) && HasDropped(m, s0, torn0, gone + {key})
    {
      GoneStep(m, s0, gone, key);
      Discard(key);
    }

    /** The second loop: the entries of unused keys are torn down and their nodes removed. */
    method DropLeftovers(used: set<K>)
      requires ItemsValid() && Distinct(siblings)
      modifies this`siblings, this`items, this`torn
      ensures ItemsValid() && Distinct(siblings)
      ensures items == Drop(old(items), old(items).table.Keys - used)
      ensures siblings == Minus(old(siblings), Dead(old(items).table, old(items).table.Keys - used))
      ensures old(torn) <= torn
      ensures Elements(torn) == Elements(old(torn)) + Torn(old(items).table, old(items).table.Keys - used)
    {
      var snapshot := items;
      ghost var gone, doomed := {}, snapshot.table.Keys - used;
      DropAbsent(items, {});
      MinusNothing(siblings, {});
      assert Dead(snapshot.table, {}) == {} && Torn(snapshot.table, {}) == {};
      for i := 0 to |snapshot.keys|
        invariant gone <= doomed <= gone + Elements(snapshot.keys[i..]) && gone !! Elements(snapshot.keys[i..])
        invariant ItemsValid() && Distinct(siblings) && HasDropped(snapshot, old(siblings), old(torn), gone)
      {
        var key := snapshot.keys[i];
        HeadOf(snapshot.keys, i);
        if key !in used {
          DiscardNext(key, snapshot, old(siblings), old(torn), gone);
          gone := gone + {key};
        }
      }
      assert gone == doomed;
    }

    /** Tears the entry of `key` down and takes its node out of the parent. */
    method Discard(key: K)
      requires ItemsValid() && Distinct(siblings) && key in items.table
      modifies this`siblings, this`items, this`torn
      ensures ItemsValid() && Distinct(siblings)
      ensures items == Drop(old(items), {key})
      ensures siblings == Minus(old(siblings), {old(items).table[key].node})
      ensures old(torn) <= torn
      ensures Elements(torn) == Elements(old(torn)) +
        if old(items).table[key].disposable then {old(items).table[key].node} else {}
    {
      var entry := items.table[key];
      MinusDistinct(siblings, {entry.node});
      DropEntryOk(placeholder, bound, items, created, nextNode, torn, key);
      if entry.disposable {
        torn := torn + [entry.node];
      }
      if entry.node in siblings {
        siblings := Minus(siblings, {entry.node});
      } else {
        MinusNothing(siblings, {entry.node});
      }
      items := Drop(items, {key});
    }

    /** One run of the effect, from whatever siblings it finds. Behind the placeholder stand exactly the nodes of the
        distinct keys, by last occurrence, then the foreign siblings in their old order; foreign siblings before the
        placeholder stay. Surviving keys keep their node, and exactly the entries whose key left are torn down, once
        each. */
    method Run(list: seq<T>, ghost before: seq<Node>, ghost after: seq<Node>)
      requires Valid() && siblings == before + [placeholder] + after
      modifies this`siblings, this`items, this`nextNode, this`torn, this`created
      ensures Valid()
      ensures var own := NodeSet(old(items).table);
        && items.table.Keys == Elements(Keys(list))
        && siblings == Minus(before, own) + [placeholder] + NodesOf(LastOrder(Keys(list)), items.table) +
          Minus(after, own)
      ensures Distinct(LastOrder(Keys(list))) && Distinct(NodesOf(LastOrder(Keys(list)), items.table))
      ensures forall k :: k in items.table ==> ShowsLast(items.table, list, Keys(list), k)
      ensures forall k :: k in items.table ==>
                if k in old(items).table then items.table[k].node == old(items).table[k].node
                else old(nextNode) <= items.table[k].node
      ensures forall k :: k in items.table ==>
                items.table[k].disposable ==
                if k in old(items).table then old(items).table[k].disposable else bound(items.table[k].node)
      ensures old(torn) <= torn
      ensures Elements(torn) == Elements(old(torn)) +
        Torn(old(items).table, old(items).table.Keys - Elements(Keys(list)))
      ensures created == old(created) + NodeSet(items.table)
    {
      ghost var m0, n0, keys, c0 := items, nextNode, Keys(list), created;
      assert forall x :: x in before || x in after ==> x in siblings;
      PlaceItems(list, before, after);
      ghost var m1 := items;
      FirstLoopEnds(placeholder, bound, m1, created, nextNode, torn, before, after, list, keys, m0.table, n0);
      DropLeftovers(Elements(Keys(list)));
      RunEnds(placeholder, bound, m0.table, m1.table, items, list, keys, n0, c0, created, nextNode, torn);
    }

    /** Between runs other code may add, move and remove any siblings, as long as the placeholder stays. */
    method Disturb(children: seq<Node>, nextNode: Node)
      requires Valid() && Distinct(children) && placeholder in children && this.nextNode <= nextNode
      requires forall x :: x in children ==> x < nextNode
      modifies this`siblings, this`nextNode
      ensures Valid() && siblings == children && this.nextNode == nextNode
    {
      siblings, this.nextNode := children, nextNode;
    }

    /** Any sequence of runs, disturbed before each of them: in the end every node with a teardown that was ever created
        has been torn down exactly once if its key has left, and not at all if it is still there. */
    method RunAll(lists: seq<seq<T>>, disturbed: nat -> seq<Node>, limit: nat -> Node)
      requires Valid()
      requires forall i :: 0 <= i < |lists| ==> Distinct(disturbed(i)) && placeholder in disturbed(i)
      requires forall i :: 0 <= i < |lists| ==> forall x :: x in disturbed(i) ==> x < limit(i)
      modifies this`siblings, this`items, this`nextNode, this`torn, this`created
      ensures Valid() && old(torn) <= torn && old(created) <= created
      ensures Distinct(torn) && Elements(torn) == Gone(bound, items, created)
      ensures lists != [] ==> items.table.Keys == Elements(Keys(Last(lists)))
    {
      for i := 0 to |lists|
        invariant Valid() && old(torn) <= torn && old(created) <= created
        invariant i > 0 ==> items.table.Keys == Elements(Keys(lists[i - 1]))
      {
        Disturb(disturbed(i), Max(nextNode, limit(i)));
        var at := IndexOf(siblings, placeholder);
        assert siblings == siblings[..at] + [placeholder] + siblings[at + 1..];
        Run(lists[i], siblings[..at], siblings[at + 1..]);
      }
    }
  }

  lemma NodeSetGrows<K(!new), T>(t: map<K, Entry<T>>, u: map<K, Entry<T>>, key: K)
    requires key in u && forall k :: k in t ==> k in u && t[k].node == u[k].node
    ensures NodeSet(t) + {u[key].node} <= NodeSet(u)
  {
    forall x | x in NodeSet(t) ensures x in NodeSet(u) {
      var k :| k in t && t[k].node == x;
      assert u[k].node == x;
    }
  }

  /** Whatever a run created is still in use when it ends. */
  lemma SurvivorsAreCreated<K(!new), T>(t0: map<K, Entry<T>>, t1: map<K, Entry<T>>, u: map<K, Entry<T>>,
                                        c0: set<Node>, c1: set<Node>)
    requires NodeSet(t0) <= c0 <= c1 <= c0 + NodeSet(t1) && NodeSet(u) <= c1
    requires forall k :: k in t0 ==> k in t1 && t1[k].node == t0[k].node
    requires forall k :: k in t1 && k !in u ==> k in t0
    requires forall k :: k in u ==> k in t1 && u[k] == t1[k]
    ensures c1 == c0 + NodeSet(u)
  {
    forall x | x in c1 && x !in c0 ensures x in NodeSet(u) {
      var k :| k in t1 && t1[k].node == x;
      assert forall j :: j in t0 ==> t0[j].node in NodeSet(t0);
    }
  }

  /** What the first loop leaves for the second one to do: the siblings that then remain, and the teardowns due. */
  lemma FirstLoopEnds<K(!new), T>(placeholder: Node, bound: Node -> bool, m: OrderedMap<K, Entry<T>>,
                                  created: set<Node>, nextNode: Node, torn: seq<Node>,
                                  before: seq<Node>, after: seq<Node>, list: seq<T>, keys: seq<K>,
                                  t0: map<K, Entry<T>>, n0: Node)
    requires ItemsOk(placeholder, bound, m, created, nextNode, torn) && n0 <= nextNode
    requires |keys| == |list| && Bound(m.table, list, keys, t0, n0)
    requires forall x :: x in before || x in after ==> x < n0
    ensures var final := Minus(before, NodeSet(t0)) + [placeholder] + NodesOf(LastOrder(keys), m.table) +
        Minus(after, NodeSet(t0));
      && placeholder in final && (forall x :: x in final ==> x < nextNode)
      && Minus(Arranged(before, placeholder, NodesOf(LastOrder(keys), m.table), after),
               Dead(m.table, m.table.Keys - Elements(keys))) == final
    ensures Torn(m.table, m.table.Keys - Elements(keys)) == Torn(t0, t0.Keys - Elements(keys))
  {
    var t, seg := m.table, NodesOf(LastOrder(keys), m.table);
    FinalSiblings(before, placeholder, after, keys, t0, t, n0, Dead(t, t.Keys - Elements(keys)));
    ProperSiblings(before, placeholder, seg, after, NodeSet(t0), nextNode);
  }

  /** What the second loop leaves of the table, and of the nodes created so far. */
  lemma RunEnds<K(!new), T>(placeholder: Node, bound: Node -> bool, t0: map<K, Entry<T>>, t1: map<K, Entry<T>>,
                            m: OrderedMap<K, Entry<T>>, list: seq<T>, keys: seq<K>, n0: Node,
                            c0: set<Node>, c1: set<Node>, nextNode: Node, torn: seq<Node>)
    requires ItemsOk(placeholder, bound, m, c1, nextNode, torn) && Teardowns(t0, bound)
    requires |keys| == |list| && Bound(t1, list, keys, t0, n0) && m.table == t1 - (t1.Keys - Elements(keys))
    requires (forall k :: k in t0 ==> t0[k].node in c0) && c0 <= c1 <= c0 + NodeSet(t1)
    ensures m.table.Keys == Elements(keys)
    ensures NodesOf(LastOrder(keys), m.table) == NodesOf(LastOrder(keys), t1)
    ensures Distinct(LastOrder(keys)) && Distinct(NodesOf(LastOrder(keys), m.table))
    ensures forall k :: k in m.table ==> ShowsLast(m.table, list, keys, k)
    ensures forall k :: k in m.table ==> if k in t0 then m.table[k].node == t0[k].node else n0 <= m.table[k].node
    ensures forall k :: k in m.table ==>
              m.table[k].disposable == if k in t0 then t0[k].disposable else bound(m.table[k].node)
    ensures c1 == c0 + NodeSet(m.table)
  {
    SurvivorsKeep(t1, m.table, list, keys, t0, n0);
    SurvivorsAreCreated(t0, t1, m.table, c0, c1);
    LastOrderDistinct(keys);
  }

  lemma GoneStep<K(!new), T>(m: OrderedMap<K, Entry<T>>, siblings: seq<Node>, gone: set<K>, key: K)
    requires key in m.table
    ensures Minus(Minus(siblings, Dead(m.table, gone)), {m.table[key].node}) ==
      Minus(siblings, Dead(m.table, gone + {key}))
    ensures Torn(m.table, gone + {key}) == Torn(m.table, gone) +
      if m.table[key].disposable then {m.table[key].node} else {}
    ensures Drop(Drop(m, gone), {key}) == Drop(m, gone + {key})
  {
    assert Dead(m.table, gone + {key}) == Dead(m.table, gone) + {m.table[key].node};
    MinusMinus(siblings, Dead(m.table, gone), {m.table[key].node});
    DropDrop(m, gone, {key});
  }

  /** After the first loop, the nodes of the segment and those of the leftovers are apart, and among the siblings that
      were there they are exactly the nodes the items map held before. */
  lemma LeftoversAreOld<K(!new), T>(t0: map<K, Entry<T>>, t1: map<K, Entry<T>>, used: set<K>,
                                    before: seq<Node>, after: seq<Node>, seg: seq<Node>, n0: Node)
    requires Injective(t1) && t1.Keys == t0.Keys + used
    requires forall k :: k in t0 ==> t1[k].node == t0[k].node
    requires forall k :: k in t1 && k !in t0 ==> n0 <= t1[k].node
    requires forall k :: k in t0 && k !in used ==> t1[k] == t0[k]
    requires forall x :: x in before || x in after ==> x < n0
    requires Elements(seg) == Dead(t1, used)
    ensures Elements(seg) !! Dead(t1, t1.Keys - used)
    ensures forall x :: x in before || x in after ==>
      (x in Elements(seg) + Dead(t1, t1.Keys - used) <==> x in NodeSet(t0))
    ensures Torn(t1, t1.Keys - used) == Torn(t0, t0.Keys - used)
  {
  }

  lemma ArrangedNothing(before: seq<Node>, placeholder: Node, after: seq<Node>)
    ensures Arranged(before, placeholder, [], after) == before + [placeholder] + after
  {
    assert Elements<Node>([]) == {};
    MinusNothing(before, {});
    MinusNothing(after, {});
  }

  lemma KeysStep<K(!new)>(keys: seq<K>, i: nat)
    requires i < |keys|
    ensures forall k :: k in keys[..i + 1] <==> k in keys[..i] || k == keys[i]
    ensures LastIndex(keys[..i + 1], keys[i]) == i
    ensures forall k :: k in keys[..i] && k != keys[i] ==> LastIndex(keys[..i + 1], k) == LastIndex(keys[..i], k)
  {
    assert keys[..i + 1] == keys[..i] + [keys[i]];
    assert keys[..i + 1][..i] == keys[..i];
  }
}
