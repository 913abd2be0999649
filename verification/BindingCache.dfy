/** Event delegation: finding an element's binding for an event, through a cache guarded by a signature of the element's
    `zen-action` attributes. */
module BindingCache {
  import opened Prelude
  import ActionCalls

  type Element = nat

  datatype Attr = Attr(name: string, value: string)

  datatype Phase = Capture | Bubble | Any

  datatype Match = Match(actionName: string, parsed: ActionCalls.ParsedCall, modifiers: seq<string>, element: Element)

  const PLAIN := "zen-action"

  const PREFIX := "zen-action:"

  predicate IsBoundName(name: string) { name == PLAIN || PREFIX <= name }

  predicate IsBound(a: Attr) { IsBoundName(a.name) }

  // ---- looking at the attributes ------------------------------------------------------------------

  function SplitDots(s: string, piece: string): seq<string>
    decreases |s|
  {
    if s == "" then [piece]
    else if s[0] == '.' then [piece] + SplitDots(s[1..], "")
    else SplitDots(s[1..], piece + [s[0]])
  }

  function NonEmpty(parts: seq<string>): seq<string> {
    if parts == [] then [] else (if parts[0] == "" then [] else [parts[0]]) + NonEmpty(parts[1..])
  }

  datatype Binding = Binding(event: string, modifiers: seq<string>)

  lemma {:induction false} SplitDotsNonEmpty(s: string, piece: string)
    ensures SplitDots(s, piece) != []
    decreases |s|
  {
    if s != "" && s[0] != '.' { SplitDotsNonEmpty(s[1..], piece + [s[0]]); }
  }

  lemma {:induction false} SplitAtDot(p: string, rest: string, piece: string)
    requires '.' !in p
    ensures SplitDots(p, piece) == [piece + p]
    ensures SplitDots(p + "." + rest, piece) == [piece + p] + SplitDots(rest, "")
    decreases |p|
  {
    var all := p + "." + rest;
    if p == "" {
      assert all[1..] == rest && piece + p == piece;
    } else {
      assert all[1..] == p[1..] + "." + rest;
      assert piece + [p[0]] + p[1..] == piece + p;
      assert forall c :: c in p[1..] ==> c in p;
      SplitAtDot(p[1..], rest, piece + [p[0]]);
    }
  }

  function ParseBinding(raw: string): Binding {
    SplitDotsNonEmpty(raw, "");
    var parts := SplitDots(raw, "");
    Binding(parts[0], NonEmpty(parts[1..]))
  }

  /** The attribute binds the event explicitly, in this phase, to some action. */
  predicate Binds(a: Attr, event: string, phase: Phase) {
    && PREFIX <= a.name && a.value != ""
    && var b := ParseBinding(a.name[|PREFIX|..]);
       b.event == event && (phase.Any? || ("capture" in b.modifiers) == phase.Capture?)
  }

  function MatchOf(a: Attr, el: Element): Match
    requires PREFIX <= a.name
  {
    Match(a.value, ActionCalls.ParseActionCall(a.value), ParseBinding(a.name[|PREFIX|..]).modifiers, el)
  }

  function FirstExplicit(attrs: seq<Attr>, el: Element, event: string, phase: Phase): Option<Match> {
    if attrs == [] then None
    else if Binds(attrs[0], event, phase) then Some(MatchOf(attrs[0], el))
    else FirstExplicit(attrs[1..], el, event, phase)
  }

  function GetAttribute(attrs: seq<Attr>, name: string): Option<string> {
    if attrs == [] then None else if attrs[0].name == name then Some(attrs[0].value) else GetAttribute(attrs[1..], name)
  }

  /** The binding found without any cache. */
  function FindUncached(attrs: seq<Attr>, el: Element, event: string, phase: Phase): Option<Match> {
    var explicit := FirstExplicit(attrs, el, event, phase);
    if explicit.Some? || event != "click" || phase.Capture? then explicit
    else
      var action := GetAttribute(attrs, PLAIN);
      if action.None? || action.value == "" then None
      else Some(Match(action.value, ActionCalls.ParseActionCall(action.value), [], el))
  }

  // ---- the signature ----------------------------------------------------------------------------------

  function BoundAttrs(attrs: seq<Attr>): seq<Attr> {
    if attrs == [] then [] else (if IsBound(attrs[0]) then [attrs[0]] else []) + BoundAttrs(attrs[1..])
  }

  function Printed(attrs: seq<Attr>): (r: seq<string>)
    ensures |r| == |attrs|
  {
    seq(|attrs|, i requires 0 <= i < |attrs| => attrs[i].name + "=" + attrs[i].value)
  }

  function Signature(attrs: seq<Attr>): string { Join(Printed(BoundAttrs(attrs)), "|") }

  method ComputeBindingSignature(attrs: seq<Attr>) returns (r: string)
    ensures r == Signature(attrs)
  {
    var parts: seq<string> := [];
    for i := 0 to |attrs|
      invariant parts + Printed(BoundAttrs(attrs[i..])) == Printed(BoundAttrs(attrs))
    {
      var before := parts;
      assert attrs[i..][1..] == attrs[i + 1..];
      if IsBound(attrs[i]) {
        parts := parts + [attrs[i].name + "=" + attrs[i].value];
        assert BoundAttrs(attrs[i..]) == [attrs[i]] + BoundAttrs(attrs[i + 1..]);
        assert before + Printed(BoundAttrs(attrs[i..])) == parts + Printed(BoundAttrs(attrs[i + 1..]));
      }
    }
    assert parts == Printed(BoundAttrs(attrs));
    r := Join(parts, "|");
  }

  // ---- what the signature tells apart ---------------------------------------------------------------

  predicate PlainName(name: string) { IsBoundName(name) && '|' !in name && '=' !in name }

  /** Inside the value, from `i` to `j`, stands what could be the beginning of another bound attribute. */
  predicate MarkAt(value: string, i: nat, j: nat) {
    i < j < |value| && value[i] == '|' && value[j] == '=' && PlainName(value[i + 1..j])
  }

  ghost predicate Marked(value: string) { exists i, j :: MarkAt(value, i, j) }

  ghost predicate PlainNames(attrs: seq<Attr>) {
    forall i :: 0 <= i < |attrs| && IsBound(attrs[i]) ==> PlainName(attrs[i].name)
  }

  ghost predicate Unmarked(attrs: seq<Attr>) {
    forall i :: 0 <= i < |attrs| && IsBound(attrs[i]) ==> !Marked(attrs[i].value)
  }

  lemma FirstPartsAgree(a: string, b: string, c: char, x: string, y: string)
    requires c !in a && c !in b && a + [c] + x == b + [c] + y
    ensures a == b && x == y
  {
    var s, t := a + [c] + x, b + [c] + y;
    assert s[|a|] == c && t[|b|] == c;
    assert forall k :: 0 <= k < |a| ==> s[k] == a[k];
    assert forall k :: 0 <= k < |b| ==> t[k] == b[k];
    assert |a| == |b|;
    assert a == s[..|a|] && x == s[|a| + 1..] && y == t[|b| + 1..];
  }

  function PrintOne(a: Attr): string { a.name + "=" + a.value }

  function Joined(attrs: seq<Attr>): string { Join(Printed(attrs), "|") }

  /** What follows the first attribute. */
  function Following(attrs: seq<Attr>): string
    requires attrs != []
  {
    if |attrs| == 1 then "" else ['|'] + Joined(attrs[1..])
  }

  lemma JoinStep(attrs: seq<Attr>)
    requires attrs != []
    ensures Joined(attrs) == PrintOne(attrs[0]) + Following(attrs)
    ensures Joined(attrs) == attrs[0].name + ['='] + (attrs[0].value + Following(attrs))
  {
    assert Printed(attrs)[1..] == Printed(attrs[1..]);
    var n, v, f := attrs[0].name, attrs[0].value, Following(attrs);
    assert n + "=" + v + f == n + ['='] + (v + f);
  }

  /** Where one value reaches further than the other, it runs over the name of the next attribute. */
  lemma LongerIsMarked(longer: string, after: string, shorter: string, name: string, w: string)
    requires |longer| > |shorter| && longer + after == shorter + (['|'] + (name + ['='] + w))
    requires (after == "" || after[0] == '|') && PlainName(name)
    ensures MarkAt(longer, |shorter|, |shorter| + 1 + |name|)
    ensures longer == shorter + (['|'] + (name + ['='] + longer[|shorter| + 2 + |name|..]))
    ensures longer[|shorter| + 2 + |name|..] + after == w
  {
    var head := ['|'] + (name + ['=']);
    Associates(['|'], name + ['='], w);
    var e := LongerPart(shorter, head + w, longer, after);
    assert head + w == e + after;
    var f := RestOfMark(name, head, w, e, after);
    MarkBetween(shorter, name, head, f);
  }

  lemma PartStarts(e: string, f: string, after: string, w: string)
    requires f != "" && after == f + w
    ensures (e + f)[|e|] == after[0]
  {
  }

  /** What runs over the beginning of a mark covers all of it. */
  lemma RestOfMark(name: string, head: string, w: string, e: string, after: string) returns (f: string)
    requires head == ['|'] + (name + ['=']) && '|' !in name && head + w == e + after && e != ""
    requires after == "" || after[0] == '|'
    ensures e == head + f && w == f + after
  {
    assert forall k :: 0 < k <= |name| ==> head[k] == name[k - 1];
    if |e| < |head| {
      f := LongerPart(e, after, head, w);
      PartStarts(e, f, after, w);
    } else if |e| == |head| {
      f := "";
      AppendCancels(e, after, head, w);
    } else {
      f := LongerPart(head, w, e, after);
    }
  }

  lemma MarkBetween(before: string, name: string, head: string, f: string)
    requires head == ['|'] + (name + ['=']) && PlainName(name)
    ensures var value := before + (head + f);
      && MarkAt(value, |before|, |before| + 1 + |name|)
      && value == before + (['|'] + (name + ['='] + value[|before| + 2 + |name|..]))
      && value[|before| + 2 + |name|..] == f
  {
    var value := before + (head + f);
    assert value[|before| + 1..|before| + 1 + |name|] == name;
    assert value[|before| + 2 + |name|..] == f;
    Associates(['|'], name + ['='], f);
  }

  ghost predicate AllPlain(s: seq<Attr>) { forall i :: 0 <= i < |s| ==> PlainName(s[i].name) }

  ghost predicate NoneMarked(s: seq<Attr>) { forall i :: 0 <= i < |s| ==> !Marked(s[i].value) }

  lemma JoinedNotEmpty(s: seq<Attr>)
    requires s != []
    ensures Joined(s) != ""
  {
    JoinStep(s);
  }

  /** A list without marks is the finest one with its joined form: every other is shorter. */
  lemma {:induction false} FinestIsUnique(s: seq<Attr>, t: seq<Attr>)
    requires AllPlain(s) && AllPlain(t) && NoneMarked(s) && Joined(s) == Joined(t)
    ensures s == t || |t| < |s|
    decreases |s|
  {
    if s == [] || t == [] {
      if s != [] { JoinedNotEmpty(s); }
      if t != [] { JoinedNotEmpty(t); }
    } else {
      JoinStep(s);
      JoinStep(t);
      var v, w := s[0].value, t[0].value;
      FirstPartsAgree(s[0].name, t[0].name, '=', v + Following(s), w + Following(t));
      if |v| == |w| {
        assert v == (v + Following(s))[..|v|] && w == (w + Following(t))[..|w|];
        assert Following(s) == (v + Following(s))[|v|..] && Following(t) == (w + Following(t))[|w|..];
        SameFirst(s, t);
      } else if |v| > |w| {
        MarkedByOther(s, t);
      } else {
        CoarserFirst(s, t);
      }
    }
  }

  lemma {:induction false} SameFirst(s: seq<Attr>, t: seq<Attr>)
    requires AllPlain(s) && AllPlain(t) && NoneMarked(s) && s != [] && t != []
    requires s[0] == t[0] && Following(s) == Following(t)
    ensures s == t || |t| < |s|
    decreases |s|, 0
  {
    if |s| == 1 {
      assert s == [s[0]] == t;
    } else {
      assert |t| > 1;
      assert Following(s)[1..] == Joined(s[1..]) && Following(t)[1..] == Joined(t[1..]);
      FinestIsUnique(s[1..], t[1..]);
      assert s == [s[0]] + s[1..] && t == [t[0]] + t[1..];
    }
  }

  lemma MarkedByOther(s: seq<Attr>, t: seq<Attr>)
    requires AllPlain(t) && s != [] && t != []
    requires s[0].value + Following(s) == t[0].value + Following(t) && |s[0].value| > |t[0].value|
    ensures Marked(s[0].value)
  {
    assert |t| > 1 by { assert |s[0].value + Following(s)| >= |s[0].value|; }
    JoinStep(t[1..]);
    LongerIsMarked(s[0].value, Following(s), t[0].value, t[1].name, t[1].value + Following(t[1..]));
  }

  /** Cut the longer value where the other list goes on, and what is left of it stands for the rest of that list. */
  lemma CoarserRest(s: seq<Attr>, t: seq<Attr>) returns (u: seq<Attr>)
    requires AllPlain(s) && AllPlain(t) && s != [] && t != []
    requires s[0].value + Following(s) == t[0].value + Following(t) && |s[0].value| < |t[0].value|
    ensures |s| > 1 && AllPlain(u) && |u| == |t| && Joined(u) == Joined(s[1..])
  {
    var v, w := s[0].value, t[0].value;
    assert |s| > 1 by { assert |w + Following(t)| >= |w|; }
    var name, rest := s[1].name, s[1].value + Following(s[1..]);
    JoinStep(s[1..]);
    LongerIsMarked(w, Following(t), v, name, rest);
    u := RestOf(name, w[|v| + 2 + |name|..], t, rest);
    assert Joined(s[1..]) == name + ['='] + rest;
  }

  lemma RestOf(name: string, value: string, t: seq<Attr>, rest: string) returns (u: seq<Attr>)
    requires AllPlain(t) && t != [] && PlainName(name) && value + Following(t) == rest
    ensures AllPlain(u) && |u| == |t| && Joined(u) == name + ['='] + rest
  {
    u := [Attr(name, value)] + t[1..];
    assert u[1..] == t[1..];
    JoinStep(u);
    assert Following(u) == Following(t);
  }

  lemma {:induction false} CoarserFirst(s: seq<Attr>, t: seq<Attr>)
    requires AllPlain(s) && AllPlain(t) && NoneMarked(s) && s != [] && t != []
    requires s[0].value + Following(s) == t[0].value + Following(t) && |s[0].value| < |t[0].value|
    ensures |t| < |s|
    decreases |s|, 0
  {
    var u := CoarserRest(s, t);
    FinestIsUnique(s[1..], u);
  }

  lemma {:induction false} BoundAttrsKeep(attrs: seq<Attr>)
    ensures PlainNames(attrs) ==> AllPlain(BoundAttrs(attrs))
    ensures Unmarked(attrs) ==> NoneMarked(BoundAttrs(attrs))
  {
    if attrs != [] {
      var rest := attrs[1..];
      assert forall i :: 0 <= i < |rest| ==> rest[i] == attrs[i + 1];
      BoundAttrsKeep(rest);
      assert PlainNames(attrs) ==> PlainNames(rest);
      assert Unmarked(attrs) ==> Unmarked(rest);
    }
  }

  /** Among lists whose values hold no mark, equal signatures mean equal `zen-action` attributes, in the same order. */
  lemma SignatureIsInjective(a: seq<Attr>, b: seq<Attr>)
    requires PlainNames(a) && PlainNames(b) && Unmarked(a) && Unmarked(b) && Signature(a) == Signature(b)
    ensures BoundAttrs(a) == BoundAttrs(b)
  {
    BoundAttrsKeep(a);
    BoundAttrsKeep(b);
    FinestIsUnique(BoundAttrs(a), BoundAttrs(b));
    FinestIsUnique(BoundAttrs(b), BoundAttrs(a));
  }

  // ---- splitting at a mark --------------------------------------------------------------------------

  /** The attribute at `i` becomes two, the second of them what the mark from `p` to `q` announces. */
  function SplitAt(attrs: seq<Attr>, i: nat, p: nat, q: nat): seq<Attr>
    requires i < |attrs| && MarkAt(attrs[i].value, p, q)
  {
    var v := attrs[i].value;
    attrs[..i] + [Attr(attrs[i].name, v[..p]), Attr(v[p + 1..q], v[q + 1..])] + attrs[i + 1..]
  }

  lemma {:induction false} BoundAttrsConcat(a: seq<Attr>, b: seq<Attr>)
    ensures BoundAttrs(a + b) == BoundAttrs(a) + BoundAttrs(b)
  {
    if a == [] {
      assert a + b == b;
    } else {
      var first := if IsBound(a[0]) then [a[0]] else [];
      assert (a + b)[1..] == a[1..] + b && (a + b)[0] == a[0];
      BoundAttrsConcat(a[1..], b);
      assert first + (BoundAttrs(a[1..]) + BoundAttrs(b)) == first + BoundAttrs(a[1..]) + BoundAttrs(b);
    }
  }

  lemma BoundAttrsOfTwo(c: Attr, d: Attr)
    requires IsBound(c) && IsBound(d)
    ensures BoundAttrs([c]) == [c] && BoundAttrs([c, d]) == [c, d]
  {
    var one, two := [c], [c, d];
    assert one[1..] == [] && two[1..] == [d] && [d][1..] == [];
  }

  lemma CutAt(s: string, k: nat)
    requires k < |s|
    ensures s == s[..k] + ([s[k]] + s[k + 1..])
  {
  }

  lemma PrintsAround(name: string, x: string, next: string, y: string)
    ensures PrintOne(Attr(name, x + (['|'] + (next + (['='] + y))))) ==
            PrintOne(Attr(name, x)) + (['|'] + PrintOne(Attr(next, y)))
  {
    Associates(next, ['='], y);
    Associates(name + "=", x, ['|'] + (next + ['='] + y));
  }

  lemma SplitPrints(a: Attr, p: nat, q: nat)
    requires MarkAt(a.value, p, q)
    ensures PrintOne(a) == PrintOne(Attr(a.name, a.value[..p])) +
      (['|'] + PrintOne(Attr(a.value[p + 1..q], a.value[q + 1..])))
  {
    var v := a.value;
    var t := v[p + 1..];
    CutAt(v, p);
    CutAt(t, q - p - 1);
    assert t[..q - p - 1] == v[p + 1..q] && t[q - p..] == v[q + 1..];
    PrintsAround(a.name, v[..p], v[p + 1..q], v[q + 1..]);
  }

  lemma {:induction false} JoinedAlike(x: seq<Attr>, s: seq<Attr>, t: seq<Attr>)
    requires s != [] && t != [] && Joined(s) == Joined(t)
    ensures Joined(x + s) == Joined(x + t)
  {
    if x == [] {
      assert x + s == s && x + t == t;
    } else {
      assert (x + s)[1..] == x[1..] + s && (x + t)[1..] == x[1..] + t;
      JoinedAlike(x[1..], s, t);
      JoinStep(x + s);
      JoinStep(x + t);
    }
  }

  lemma SplitFirstJoins(a: Attr, p: nat, q: nat, y: seq<Attr>)
    requires MarkAt(a.value, p, q)
    ensures var c, d := Attr(a.name, a.value[..p]), Attr(a.value[p + 1..q], a.value[q + 1..]);
      Joined([a] + y) == Joined([c, d] + y)
  {
    var c, d := Attr(a.name, a.value[..p]), Attr(a.value[p + 1..q], a.value[q + 1..]);
    var one, two, tail := [a] + y, [c, d] + y, [d] + y;
    assert one[1..] == y && two[1..] == tail && tail[1..] == y;
    JoinStep(one);
    JoinStep(two);
    JoinStep(tail);
    SplitPrints(a, p, q);
    var f, g, h := Following(one), PrintOne(c), PrintOne(d);
    assert Following(tail) == f && Following(two) == ['|'] + Joined(tail);
    assert Joined(one) == g + (['|'] + h) + f && Joined(two) == g + (['|'] + (h + f));
    Associates(g, ['|'] + h, f);
    Associates(['|'], h, f);
  }

  /** A list with a mark shares its signature with the list split there, which has one bound attribute more. */
  lemma SplitSharesSignature(attrs: seq<Attr>, i: nat, p: nat, q: nat)
    requires i < |attrs| && IsBound(attrs[i]) && MarkAt(attrs[i].value, p, q)
    ensures Signature(SplitAt(attrs, i, p, q)) == Signature(attrs)
    ensures |BoundAttrs(SplitAt(attrs, i, p, q))| == |BoundAttrs(attrs)| + 1
    ensures PlainNames(attrs) ==> PlainNames(SplitAt(attrs, i, p, q))
  {
    var a := attrs[i];
    var c, d := Attr(a.name, a.value[..p]), Attr(a.value[p + 1..q], a.value[q + 1..]);
    var x, y, r := attrs[..i], attrs[i + 1..], SplitAt(attrs, i, p, q);
    assert attrs == x + ([a] + y) && r == x + ([c, d] + y);
    BoundAttrsOfTwo(a, a);
    BoundAttrsOfTwo(c, d);
    BoundAttrsConcat([a], y);
    BoundAttrsConcat(x, [a] + y);
    BoundAttrsConcat([c, d], y);
    BoundAttrsConcat(x, [c, d] + y);
    SplitFirstJoins(a, p, q, BoundAttrs(y));
    JoinedAlike(BoundAttrs(x), [a] + BoundAttrs(y), [c, d] + BoundAttrs(y));
    SplitNamesPlain(attrs, i, p, q);
  }

  lemma SplitNamesPlain(attrs: seq<Attr>, i: nat, p: nat, q: nat)
    requires i < |attrs| && IsBound(attrs[i]) && MarkAt(attrs[i].value, p, q)
    ensures PlainNames(attrs) ==> PlainNames(SplitAt(attrs, i, p, q))
    ensures Distinct(Names(attrs)) && attrs[i].value[p + 1..q] !in Names(attrs) ==>
      Distinct(Names(SplitAt(attrs, i, p, q)))
  {
    var r := SplitAt(attrs, i, p, q);
    var name := attrs[i].value[p + 1..q];
    forall k | 0 <= k < |r|
      ensures r[k].name == if k <= i then attrs[k].name else if k == i + 1 then name else attrs[k - 1].name
    {
    }
    if Distinct(Names(attrs)) && name !in Names(attrs) {
      var old_, new_ := Names(attrs), Names(r);
      forall j, k | 0 <= j < k < |new_| ensures new_[j] != new_[k] {
        assert j != i + 1 ==> new_[j] == old_[if j <= i then j else j - 1];
        assert k != i + 1 ==> new_[k] == old_[if k <= i then k else k - 1];
      }
    }
  }

  function Names(attrs: seq<Attr>): seq<string> { seq(|attrs|, i requires 0 <= i < |attrs| => attrs[i].name) }

  /** Exactly the lists without a mark are the finest with their signature: a mark is what lets a list be mistaken
      for one with more attributes. */
  lemma UnmarkedIffFinest(attrs: seq<Attr>)
    requires PlainNames(attrs)
    ensures Unmarked(attrs) <==>
      forall t :: PlainNames(t) && Signature(t) == Signature(attrs) ==> |BoundAttrs(t)| <= |BoundAttrs(attrs)|
  {
    if Unmarked(attrs) {
      forall t | PlainNames(t) && Signature(t) == Signature(attrs) ensures |BoundAttrs(t)| <= |BoundAttrs(attrs)| {
        BoundAttrsKeep(attrs);
        BoundAttrsKeep(t);
        FinestIsUnique(BoundAttrs(attrs), BoundAttrs(t));
      }
    } else {
      var i :| 0 <= i < |attrs| && IsBound(attrs[i]) && Marked(attrs[i].value);
      var p, q :| MarkAt(attrs[i].value, p, q);
      SplitSharesSignature(attrs, i, p, q);
    }
  }

  lemma {:induction false} ExplicitSeesOnlyBound(attrs: seq<Attr>, el: Element, event: string, phase: Phase)
    ensures FirstExplicit(attrs, el, event, phase) == FirstExplicit(BoundAttrs(attrs), el, event, phase)
    ensures GetAttribute(attrs, PLAIN) == GetAttribute(BoundAttrs(attrs), PLAIN)
  {
    if attrs != [] {
      var rest := BoundAttrs(attrs[1..]);
      ExplicitSeesOnlyBound(attrs[1..], el, event, phase);
      if IsBound(attrs[0]) {
        var all := BoundAttrs(attrs);
        assert all == [attrs[0]] + rest;
        assert all[0] == attrs[0] && all[1..] == rest;
      } else {
        assert BoundAttrs(attrs) == rest;
        assert !Binds(attrs[0], event, phase) && attrs[0].name != PLAIN;
      }
    }
  }

  /** The search looks at nothing but what the signature covers. */
  lemma FindSeesOnlyBound(a: seq<Attr>, b: seq<Attr>, el: Element, event: string, phase: Phase)
    requires BoundAttrs(a) == BoundAttrs(b)
    ensures FindUncached(a, el, event, phase) == FindUncached(b, el, event, phase)
  {
    ExplicitSeesOnlyBound(a, el, event, phase);
    ExplicitSeesOnlyBound(b, el, event, phase);
  }

  // ---- the cache -------------------------------------------------------------------------------------------

  datatype Cached = Cached(signature: string, byEvent: map<string, Option<Match>>)

  function PhaseName(phase: Phase): string { if phase.Capture? then "capture" else "bubble" }

  function CacheKey(event: string, phase: Phase): string {
    if phase.Any? then event else event + "|" + PhaseName(phase)
  }

  lemma CacheKeyBar(event: string, phase: Phase)
    requires '|' !in event
    ensures '|' in CacheKey(event, phase) <==> !phase.Any?
  {
    if !phase.Any? { assert CacheKey(event, phase)[|event|] == '|'; }
  }

  lemma CacheKeyIsInjective(e: string, p: Phase, f: string, q: Phase)
    requires '|' !in e && '|' !in f && CacheKey(e, p) == CacheKey(f, q)
    ensures e == f && p == q
  {
    CacheKeyBar(e, p);
    CacheKeyBar(f, q);
    if !p.Any? {
      FirstPartsAgree(e, f, '|', PhaseName(p), PhaseName(q));
      assert PhaseName(p)[0] == PhaseName(q)[0];
    }
  }

  /** The lookup an answer was computed for. */
  datatype Origin = Origin(attrs: seq<Attr>, event: string, phase: Phase)

  /** The answer is what the search finds for a lookup with this signature and cache key. */
  ghost predicate Explains(o: Origin, el: Element, signature: string, key: string, answer: Option<Match>) {
    && Signature(o.attrs) == signature && CacheKey(o.event, o.phase) == key
    && answer == FindUncached(o.attrs, el, o.event, o.phase)
  }

  ghost predicate Tidy(o: Origin) { PlainNames(o.attrs) && Unmarked(o.attrs) && '|' !in o.event }

  /** Two tidy lookups that share signature and cache key have the same answer. */
  lemma TidyLookupsAgree(o: Origin, p: Origin, el: Element, answer: Option<Match>)
    requires Tidy(o) && Tidy(p) && Explains(o, el, Signature(p.attrs), CacheKey(p.event, p.phase), answer)
    ensures answer == FindUncached(p.attrs, el, p.event, p.phase)
  {
    SignatureIsInjective(o.attrs, p.attrs);
    CacheKeyIsInjective(o.event, o.phase, p.event, p.phase);
    FindSeesOnlyBound(o.attrs, p.attrs, el, p.event, p.phase);
  }

  class Delegation {
    var attributes: map<Element, seq<Attr>>
    var cache: map<Element, Cached>
    ghost var origins: map<Element, map<string, Origin>>

    ghost predicate Valid()
      reads this
    {
      && cache.Keys == origins.Keys
      && forall el :: el in cache ==>
           && cache[el].byEvent.Keys == origins[el].Keys
           && forall key :: key in origins[el] ==>
                Explains(origins[el][key], el, cache[el].signature, key, cache[el].byEvent[key])
    }

    /** Every answer cached for the element comes from a lookup with plain names, unmarked values and no bar in the
        event. */
    ghost predicate TidyFor(el: Element)
      reads this
    {
      el in origins ==> forall key :: key in origins[el] ==> Tidy(origins[el][key])
    }

    /** The cache has an answer and its signature is still that of the element. */
    predicate Remembers(el: Element, event: string, phase: Phase)
      requires el in attributes
      reads this
    {
      el in cache && cache[el].signature == Signature(attributes[el]) && CacheKey(event, phase) in cache[el].byEvent
    }

    constructor (attributes: map<Element, seq<Attr>>)
      ensures Valid() && this.attributes == attributes && cache == map[] && forall el :: TidyFor(el)
    {
      this.attributes, cache, origins := attributes, map[], map[];
    }

    /** Any edit of an element's attributes; the cache is not told. */
    method SetAttributes(el: Element, attrs: seq<Attr>)
      requires Valid()
      modifies this`attributes
      ensures Valid() && attributes == old(attributes)[el := attrs] && cache == old(cache)
      ensures forall x :: old(TidyFor(x)) ==> TidyFor(x)
    {
      attributes := attributes[el := attrs];
    }

    method ClearBindingCache()
      requires Valid()
      modifies this`cache, this`origins
      ensures Valid() && cache == map[] && forall el :: TidyFor(el)
    {
      cache, origins := map[], map[];
    }

    /** The search over the attributes, as the loop does it. */
    method Search(el: Element, event: string, phase: Phase) returns (r: Option<Match>)
      requires el in attributes
      ensures r == FindUncached(attributes[el], el, event, phase)
    {
      var attrs := attributes[el];
      r := None;
      var i := 0;
      while i < |attrs|
        invariant 0 <= i <= |attrs| && r == None
        invariant FirstExplicit(attrs, el, event, phase) == FirstExplicit(attrs[i..], el, event, phase)
      {
        var name := attrs[i].name;
        if PREFIX <= name {
          var binding := ParseBinding(name[|PREFIX|..]);
          if binding.event == event {
            var skip := phase != Any && ("capture" in binding.modifiers) != phase.Capture?;
            if !skip && attrs[i].value != "" {
              return Some(Match(attrs[i].value, ActionCalls.ParseActionCall(attrs[i].value), binding.modifiers, el));
            }
          }
        }
        i := i + 1;
      }
      if event == "click" && phase != Capture {
        var action := GetAttribute(attrs, PLAIN);
        if action.Some? && action.value != "" {
          r := Some(Match(action.value, ActionCalls.ParseActionCall(action.value), [], el));
        }
      }
    }

    /** Drops the element's answers when its signature has changed. */
    method Recheck(el: Element)
      requires Valid() && el in attributes
      modifies this`cache, this`origins
      ensures Valid() && el in cache && cache[el].signature == Signature(attributes[el])
      ensures cache[el].byEvent ==
                if el in old(cache) && old(cache)[el].signature == Signature(attributes[el]) then old(cache)[el].byEvent
                else map[]
      ensures forall x :: old(TidyFor(x)) ==> TidyFor(x)
      ensures forall x :: x in cache && x != el ==> x in old(cache) && cache[x] == old(cache)[x]
    {
      var sig := ComputeBindingSignature(attributes[el]);
      if el !in cache || cache[el].signature != sig {
        cache := cache[el := Cached(sig, map[])];
        origins := origins[el := map[]];
      }
    }

    method Remember(el: Element, key: string, answer: Option<Match>, ghost o: Origin)
      requires Valid() && el in cache && Explains(o, el, cache[el].signature, key, answer)
      modifies this`cache, this`origins
      ensures Valid() && cache == old(cache)[el := old(cache)[el].(byEvent := old(cache)[el].byEvent[key := answer])]
      ensures el in origins && key in origins[el] && origins[el][key] == o
      ensures forall x :: old(TidyFor(x)) && (x == el ==> Tidy(o)) ==> TidyFor(x)
    {
      var was := cache[el];
      ghost var known := origins[el];
      cache := cache[el := was.(byEvent := was.byEvent[key := answer])];
      origins := origins[el := known[key := o]];
      forall k | k in origins[el] ensures Explains(origins[el][k], el, was.signature, k, cache[el].byEvent[k]) {
        if k != key { assert k in known; }
      }
    }

    /** The answer is the one remembered under the signature and the cache key, or else that of the search. Whatever
        edits, lookups and clears came before, it is the search's answer as long as no lookup of this element met a
        mark or a bar since the last clear. */
    method FindBinding(el: Element, event: string, phase: Phase) returns (r: Option<Match>)
      requires Valid() && el in attributes
      modifies this`cache, this`origins
      ensures Valid()
      ensures r == if old(Remembers(el, event, phase)) then old(cache)[el].byEvent[CacheKey(event, phase)]
                   else FindUncached(attributes[el], el, event, phase)
      ensures Remembers(el, event, phase) && cache[el].byEvent[CacheKey(event, phase)] == r
      ensures Explains(origins[el][CacheKey(event, phase)], el, Signature(attributes[el]), CacheKey(event, phase), r)
      ensures old(TidyFor(el)) && Tidy(Origin(attributes[el], event, phase)) ==>
        TidyFor(el) && r == FindUncached(attributes[el], el, event, phase)
      ensures forall x :: x != el && old(TidyFor(x)) ==> TidyFor(x)
    {
      Recheck(el);
      var key := CacheKey(event, phase);
      ghost var now := Origin(attributes[el], event, phase);
      if key in cache[el].byEvent {
        r := cache[el].byEvent[key];
        if old(TidyFor(el)) && Tidy(now) { TidyLookupsAgree(origins[el][key], now, el, r); }
        return;
      }
      r := Search(el, event, phase);
      Remember(el, key, r, now);
    }
  }

  // ---- where the guard ends ------------------------------------------------------------------------------------

  const CLICK := PREFIX + "click"

  const KEYDOWN := PREFIX + "keydown"

  lemma EventNames()
    ensures PREFIX <= CLICK && PREFIX <= KEYDOWN
    ensures ParseBinding(CLICK[|PREFIX|..]).event == "click" && ParseBinding(KEYDOWN[|PREFIX|..]).event == "keydown"
  {
    assert CLICK[|PREFIX|..] == "click" && KEYDOWN[|PREFIX|..] == "keydown";
    SplitAtDot("click", "", "");
    SplitAtDot("keydown", "", "");
  }

  lemma SignatureOfOne(a: Attr)
    requires IsBound(a)
    ensures Signature([a]) == PrintOne(a)
  {
    var l := [a];
    assert l[1..] == [];
    assert BoundAttrs(l) == l;
    JoinStep(l);
  }

  lemma SignatureOfTwo(a: Attr, b: Attr)
    requires IsBound(a) && IsBound(b)
    ensures Signature([a, b]) == PrintOne(a) + ['|'] + PrintOne(b)
  {
    var l, m := [a, b], [b];
    assert l[1..] == m && m[1..] == [];
    assert BoundAttrs(m) == m;
    assert BoundAttrs(l) == l;
    JoinStep(l);
    JoinStep(m);
  }

  lemma FoundUnderItsEvent(one: Attr, two: Attr, three: Attr, el: Element, event: string)
    requires event != "click" && PREFIX <= one.name && PREFIX <= two.name && PREFIX <= three.name && three.value != ""
    requires ParseBinding(one.name[|PREFIX|..]).event != event && ParseBinding(two.name[|PREFIX|..]).event != event
    requires ParseBinding(three.name[|PREFIX|..]).event == event
    ensures FindUncached([one], el, event, Any).None? && FindUncached([two, three], el, event, Any).Some?
  {
    var a, b := [one], [two, three];
    assert a[1..] == [] && b[1..] == [three];
    assert FirstExplicit(a, el, event, Any) == None;
    assert FirstExplicit(b, el, event, Any) == FirstExplicit([three], el, event, Any);
  }

  lemma JoinedPrints(k: string, l: string, v: string, w: string)
    ensures PrintOne(Attr(k, v + ['|'] + l + "=" + w)) == PrintOne(Attr(k, v)) + ['|'] + PrintOne(Attr(l, w))
  {
    var p, q, r := k + "=" + (v + ['|'] + l + "=" + w), k + "=" + v, l + "=" + w;
    assert p == q + ['|'] + r;
  }

  /** With a mark in a value two different attribute lists share a signature, and one of them binds an event that the
      other does not. */
  lemma BarInValueFoolsTheCache(el: Element, value: string, action: string)
    requires action != ""
    ensures var a := [Attr(CLICK, value + ['|'] + KEYDOWN + "=" + action)];
      var b := [Attr(CLICK, value), Attr(KEYDOWN, action)];
      && Signature(a) == Signature(b)
      && FindUncached(a, el, "keydown", Any).None? && FindUncached(b, el, "keydown", Any).Some?
  {
    var one := Attr(CLICK, value + ['|'] + KEYDOWN + "=" + action);
    var two, three := Attr(CLICK, value), Attr(KEYDOWN, action);
    EventNames();
    SignatureOfOne(one);
    SignatureOfTwo(two, three);
    JoinedPrints(CLICK, KEYDOWN, value, action);
    assert "click" != "keydown" by { assert |"click"| != |"keydown"|; }
    FoundUnderItsEvent(one, two, three, el, "keydown");
  }

  // ---- every mark can leave an answer stale ---------------------------------------------------------------------

  /** The answer of the search comes from attribute `i`. */
  ghost predicate AnswersFrom(attrs: seq<Attr>, i: nat, event: string, phase: Phase) {
    && i < |attrs| && (forall j :: 0 <= j < i ==> !Binds(attrs[j], event, phase))
    && (Binds(attrs[i], event, phase) ||
        (&& event == "click" && !phase.Capture? && attrs[i].name == PLAIN && attrs[i].value != ""
         && (forall j :: 0 <= j < i ==> attrs[j].name != PLAIN)
         && (forall j :: i < j < |attrs| ==> !Binds(attrs[j], event, phase))))
  }

  lemma {:induction false} FirstExplicitIs(attrs: seq<Attr>, el: Element, event: string, phase: Phase, i: nat)
    requires i < |attrs| && (forall j :: 0 <= j < i ==> !Binds(attrs[j], event, phase))
    requires Binds(attrs[i], event, phase)
    ensures FirstExplicit(attrs, el, event, phase) == Some(MatchOf(attrs[i], el))
    decreases i
  {
    if i > 0 { FirstExplicitIs(attrs[1..], el, event, phase, i - 1); }
  }

  lemma {:induction false} NoneExplicit(attrs: seq<Attr>, el: Element, event: string, phase: Phase)
    requires forall j :: 0 <= j < |attrs| ==> !Binds(attrs[j], event, phase)
    ensures FirstExplicit(attrs, el, event, phase) == None
  {
    if attrs != [] { NoneExplicit(attrs[1..], el, event, phase); }
  }

  lemma {:induction false} FirstNamed(attrs: seq<Attr>, name: string, i: nat)
    requires i < |attrs| && attrs[i].name == name && (forall j :: 0 <= j < i ==> attrs[j].name != name)
    ensures GetAttribute(attrs, name) == Some(attrs[i].value)
    decreases i
  {
    if i > 0 { FirstNamed(attrs[1..], name, i - 1); }
  }

  lemma {:induction false} ExplicitActionIsAValue(attrs: seq<Attr>, el: Element, event: string, phase: Phase)
    requires FirstExplicit(attrs, el, event, phase).Some?
    ensures exists k :: 0 <= k < |attrs| && Binds(attrs[k], event, phase) &&
                        FirstExplicit(attrs, el, event, phase).value.actionName == attrs[k].value
  {
    if !Binds(attrs[0], event, phase) {
      ExplicitActionIsAValue(attrs[1..], el, event, phase);
      var k :| 0 <= k < |attrs[1..]| && Binds(attrs[1..][k], event, phase) &&
               FirstExplicit(attrs, el, event, phase).value.actionName == attrs[1..][k].value;
      assert attrs[1..][k] == attrs[k + 1];
    }
  }

  lemma {:induction false} AttributeIsAValue(attrs: seq<Attr>, name: string)
    requires GetAttribute(attrs, name).Some?
    ensures exists k :: 0 <= k < |attrs| && GetAttribute(attrs, name).value == attrs[k].value
  {
    if attrs[0].name != name {
      AttributeIsAValue(attrs[1..], name);
      var k :| 0 <= k < |attrs[1..]| && GetAttribute(attrs, name).value == attrs[1..][k].value;
      assert attrs[1..][k] == attrs[k + 1];
    }
  }

  lemma ActionIsAValue(attrs: seq<Attr>, el: Element, event: string, phase: Phase, v: string)
    requires forall k :: 0 <= k < |attrs| ==> attrs[k].value != v
    ensures FindUncached(attrs, el, event, phase).Some? ==>
              FindUncached(attrs, el, event, phase).value.actionName != v
  {
    if FirstExplicit(attrs, el, event, phase).Some? {
      ExplicitActionIsAValue(attrs, el, event, phase);
    } else if GetAttribute(attrs, PLAIN).Some? {
      AttributeIsAValue(attrs, PLAIN);
    }
  }

  /** The search answers with the whole value of the attribute it stops at. */
  lemma AnswerFrom(attrs: seq<Attr>, el: Element, i: nat, event: string, phase: Phase)
    requires AnswersFrom(attrs, i, event, phase)
    ensures FindUncached(attrs, el, event, phase).Some?
    ensures FindUncached(attrs, el, event, phase).value.actionName == attrs[i].value
  {
    if Binds(attrs[i], event, phase) {
      FirstExplicitIs(attrs, el, event, phase, i);
    } else {
      NoneExplicit(attrs, el, event, phase);
      FirstNamed(attrs, PLAIN, i);
    }
  }

  /** Split at a mark, the list is answered otherwise: with what stood before the mark or, where nothing did, with
      another attribute's value. */
  lemma SplitIsAnsweredOtherwise(attrs: seq<Attr>, i: nat, p: nat, q: nat, el: Element, event: string, phase: Phase)
    requires AnswersFrom(attrs, i, event, phase) && MarkAt(attrs[i].value, p, q)
    requires p > 0 || forall j :: 0 <= j < |attrs| && j != i ==> attrs[j].value != attrs[i].value
    ensures FindUncached(SplitAt(attrs, i, p, q), el, event, phase) != FindUncached(attrs, el, event, phase)
  {
    var v, s := attrs[i].value, SplitAt(attrs, i, p, q);
    AnswerFrom(attrs, el, i, event, phase);
    assert s[i] == Attr(attrs[i].name, v[..p]) && s[i + 1] == Attr(v[p + 1..q], v[q + 1..]);
    assert forall k :: 0 <= k < i ==> s[k] == attrs[k];
    assert forall k :: i + 1 < k < |s| ==> s[k] == attrs[k - 1];
    assert |v[..p]| != |v| && |v[q + 1..]| != |v|;
    if p == 0 {
      ActionIsAValue(s, el, event, phase, v);
    } else if Binds(attrs[i], event, phase) {
      FirstExplicitIs(s, el, event, phase, i);
    } else if Binds(s[i + 1], event, phase) {
      FirstExplicitIs(s, el, event, phase, i + 1);
    } else {
      NoneExplicit(s, el, event, phase);
      FirstNamed(s, PLAIN, i);
    }
  }

  /** Look-up, edit, look-up: the second answer is still the first one exactly when the edit kept the signature, and
      that of the new attributes otherwise. */
  method LookUpEditLookUp(el: Element, a: seq<Attr>, b: seq<Attr>, event: string, phase: Phase)
    returns (first: Option<Match>, second: Option<Match>)
    ensures first == FindUncached(a, el, event, phase)
    ensures second == if Signature(a) == Signature(b) then first else FindUncached(b, el, event, phase)
  {
    var d := new Delegation(map[el := a]);
    first := d.FindBinding(el, event, phase);
    d.SetAttributes(el, b);
    second := d.FindBinding(el, event, phase);
  }

  /** The cache run on such a pair: after the edit `keydown` is bound, but the answer is that it is not. */
  method StaleAnswer(el: Element, value: string, action: string) returns (answer: Option<Match>)
    requires action != ""
    ensures answer.None?
    ensures FindUncached([Attr(CLICK, value), Attr(KEYDOWN, action)], el, "keydown", Any).Some?
  {
    var a := [Attr(CLICK, value + ['|'] + KEYDOWN + "=" + action)];
    var b := [Attr(CLICK, value), Attr(KEYDOWN, action)];
    BarInValueFoolsTheCache(el, value, action);
    var first;
    first, answer := LookUpEditLookUp(el, a, b, "keydown", Any);
  }

  /** So every mark in a value that answers leaves the cache behind an edit that splits the attribute there. */
  method MarkLeavesStaleAnswer(el: Element, attrs: seq<Attr>, i: nat, p: nat, q: nat, event: string, phase: Phase)
    returns (answer: Option<Match>)
    requires AnswersFrom(attrs, i, event, phase) && IsBound(attrs[i]) && MarkAt(attrs[i].value, p, q)
    requires p > 0 || forall j :: 0 <= j < |attrs| && j != i ==> attrs[j].value != attrs[i].value
    ensures answer == FindUncached(attrs, el, event, phase)
    ensures answer != FindUncached(SplitAt(attrs, i, p, q), el, event, phase)
  {
    SplitSharesSignature(attrs, i, p, q);
    SplitIsAnsweredOtherwise(attrs, i, p, q, el, event, phase);
    var first;
    first, answer := LookUpEditLookUp(el, attrs, SplitAt(attrs, i, p, q), event, phase);
  }
}
