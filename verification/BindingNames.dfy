/** What the name of a bound attribute says, and which attribute answers an event: both on the text of the names. */
module BindingNames {
  import opened Prelude
  import opened BindingCache
  import ActionCalls

  ghost predicate DotFree(pieces: seq<string>) { forall i :: 0 <= i < |pieces| ==> '.' !in pieces[i] }

  /** The name is `zen-action:event.m1. ... .mn`. */
  ghost predicate Named(name: string, event: string, ms: seq<string>) {
    DotFree([event] + ms) && name == PREFIX + Join([event] + ms, ".")
  }

  // ---- names and their pieces ----------------------------------------------------------------------

  lemma {:induction false} SplitJoined(pieces: seq<string>)
    requires pieces != [] && DotFree(pieces)
    ensures SplitDots(Join(pieces, "."), "") == pieces
  {
    SplitAtDot(pieces[0], Join(pieces[1..], "."), "");
    assert "" + pieces[0] == pieces[0];
    if |pieces| > 1 {
      SplitJoined(pieces[1..]);
      assert pieces == [pieces[0]] + pieces[1..];
    } else {
      assert pieces == [pieces[0]];
    }
  }

  lemma {:induction false} JoinSplit(s: string, piece: string)
    requires '.' !in piece
    ensures var parts := SplitDots(s, piece); parts != [] && DotFree(parts) && Join(parts, ".") == piece + s
    decreases |s|
  {
    if s == "" {
      assert piece + s == piece;
    } else if s[0] == '.' {
      JoinSplit(s[1..], "");
      var rest := SplitDots(s[1..], "");
      assert ([piece] + rest)[1..] == rest;
      assert piece + "." + ("" + s[1..]) == piece + s;
    } else {
      JoinSplit(s[1..], piece + [s[0]]);
      assert piece + [s[0]] + s[1..] == piece + s;
    }
  }

  lemma {:induction false} NonEmptyKeeps(ms: seq<string>, m: string)
    ensures m in NonEmpty(ms) <==> m in ms && m != ""
    ensures "" !in ms ==> NonEmpty(ms) == ms
  {
    if ms != [] {
      assert ms == [ms[0]] + ms[1..];
      NonEmptyKeeps(ms[1..], m);
    }
  }

  /** A name means the event and the modifiers it is written with; empty ones are passed over. */
  lemma ParsesAsWritten(name: string, event: string, ms: seq<string>)
    requires Named(name, event, ms)
    ensures ParseBinding(name[|PREFIX|..]) == Binding(event, NonEmpty(ms))
    ensures forall m :: m in NonEmpty(ms) <==> m in ms && m != ""
    ensures "" !in ms ==> NonEmpty(ms) == ms
  {
    var pieces := [event] + ms;
    assert name[|PREFIX|..] == Join(pieces, ".");
    SplitJoined(pieces);
    assert pieces[1..] == ms;
    forall m ensures m in NonEmpty(ms) <==> m in ms && m != "" { NonEmptyKeeps(ms, m); }
    NonEmptyKeeps(ms, "");
  }

  /** Every name with the prefix is written in exactly one way. */
  lemma EveryNameIsWritten(name: string) returns (event: string, ms: seq<string>)
    requires PREFIX <= name
    ensures Named(name, event, ms)
    ensures forall other, others :: Named(name, other, others) ==> other == event && others == ms
  {
    var raw := name[|PREFIX|..];
    JoinSplit(raw, "");
    var pieces := SplitDots(raw, "");
    event, ms := pieces[0], pieces[1..];
    assert pieces == [event] + ms && "" + raw == raw && name == PREFIX + raw;
    forall other, others | Named(name, other, others) ensures other == event && others == ms {
      SplitJoined([other] + others);
      assert raw == Join([other] + others, ".");
      assert pieces == [other] + others;
      assert pieces[1..] == others;
    }
  }

  // ---- which attribute answers --------------------------------------------------------------------

  /** Capture listeners hear the bindings with `.capture`, bubble listeners the others. */
  predicate Hears(phase: Phase, ms: seq<string>) {
    match phase
    case Capture => "capture" in ms
    case Bubble => "capture" !in ms
    case Any => true
  }

  /** The attribute is written for the event and the phase, and says what to do. */
  ghost predicate WrittenFor(a: Attr, event: string, phase: Phase) {
    a.value != "" && exists ms :: Named(a.name, event, ms) && Hears(phase, ms)
  }

  lemma BindsAsWritten(a: Attr, event: string, phase: Phase)
    ensures Binds(a, event, phase) <==> WrittenFor(a, event, phase)
  {
    if PREFIX <= a.name {
      var e, ms := EveryNameIsWritten(a.name);
      ParsesAsWritten(a.name, e, ms);
      assert "capture" in ParseBinding(a.name[|PREFIX|..]).modifiers <==> "capture" in ms;
    }
  }

  lemma {:induction false} FirstExplicitAt(attrs: seq<Attr>, el: Element, event: string, phase: Phase, i: nat)
    requires i <= |attrs| && forall j :: 0 <= j < i ==> !Binds(attrs[j], event, phase)
    requires i < |attrs| ==> Binds(attrs[i], event, phase)
    ensures FirstExplicit(attrs, el, event, phase) == if i < |attrs| then Some(MatchOf(attrs[i], el)) else None
  {
    if i > 0 {
      assert forall j :: 0 <= j < i - 1 ==> attrs[1..][j] == attrs[j + 1];
      FirstExplicitAt(attrs[1..], el, event, phase, i - 1);
    }
  }

  /** The answer is the first attribute written for the event and the phase, with its value and its modifiers. */
  lemma FirstWrittenAnswers(attrs: seq<Attr>, el: Element, event: string, phase: Phase, i: nat, ms: seq<string>)
    requires i < |attrs| && forall j :: 0 <= j < i ==> !WrittenFor(attrs[j], event, phase)
    requires attrs[i].value != "" && Named(attrs[i].name, event, ms) && Hears(phase, ms)
    ensures FindUncached(attrs, el, event, phase)
            == Some(Match(attrs[i].value, ActionCalls.ParseActionCall(attrs[i].value), NonEmpty(ms), el))
  {
    forall j | 0 <= j <= i ensures Binds(attrs[j], event, phase) <==> j == i {
      BindsAsWritten(attrs[j], event, phase);
    }
    FirstExplicitAt(attrs, el, event, phase, i);
    ParsesAsWritten(attrs[i].name, event, ms);
  }

  lemma {:induction false} GetAttributeAt(attrs: seq<Attr>, name: string, i: nat)
    requires i <= |attrs| && forall j :: 0 <= j < i ==> attrs[j].name != name
    requires i < |attrs| ==> attrs[i].name == name
    ensures GetAttribute(attrs, name) == if i < |attrs| then Some(attrs[i].value) else None
  {
    if i > 0 {
      assert forall j :: 0 <= j < i - 1 ==> attrs[1..][j] == attrs[j + 1];
      GetAttributeAt(attrs[1..], name, i - 1);
    }
  }

  /** Without such an attribute, only a click outside the capture phase is answered, by a plain `zen-action` that says
      what to do; `p` is where that attribute stands, if anywhere. */
  lemma PlainAnswersClicks(attrs: seq<Attr>, el: Element, event: string, phase: Phase, p: nat)
    requires forall j :: 0 <= j < |attrs| ==> !WrittenFor(attrs[j], event, phase)
    requires p <= |attrs| && forall j :: 0 <= j < p ==> attrs[j].name != "zen-action"
    requires p < |attrs| ==> attrs[p].name == "zen-action"
    ensures FindUncached(attrs, el, event, phase) ==
      if event == "click" && phase != Capture && p < |attrs| && attrs[p].value != ""
      then Some(Match(attrs[p].value, ActionCalls.ParseActionCall(attrs[p].value), [], el))
      else None
  {
    forall j | 0 <= j < |attrs| ensures !Binds(attrs[j], event, phase) { BindsAsWritten(attrs[j], event, phase); }
    FirstExplicitAt(attrs, el, event, phase, |attrs|);
    GetAttributeAt(attrs, PLAIN, p);
  }

  /** A lone attribute `zen-action:event.m1. ... .mn` with a value answers its event, and no other: the capture listener
      if and only if one of the modifiers is `capture`, the bubble listener if and only if none is, and a search in any
      phase always. */
  lemma LoneBindingIsHeard(a: Attr, el: Element, event: string, ms: seq<string>, other: string)
    requires Named(a.name, event, ms) && a.value != "" && other != event
    ensures var found := Some(Match(a.value, ActionCalls.ParseActionCall(a.value), NonEmpty(ms), el));
      && FindUncached([a], el, event, Capture) == (if "capture" in ms then found else None)
      && FindUncached([a], el, event, Bubble) == (if "capture" in ms then None else found)
      && FindUncached([a], el, event, Any) == found
    ensures "" !in ms ==> NonEmpty(ms) == ms
    ensures forall phase :: FindUncached([a], el, other, phase) == None
  {
    assert a.name != "zen-action" by { assert |a.name| > |PREFIX| - 1; }
    ParsesAsWritten(a.name, event, ms);
    forall e, phase | !WrittenFor(a, e, phase) ensures FindUncached([a], el, e, phase) == None {
      PlainAnswersClicks([a], el, e, phase, 1);
    }
    forall e, others | Named(a.name, e, others) ensures e == event && others == ms {
      var e1, ms1 := EveryNameIsWritten(a.name);
    }
    forall phase | Hears(phase, ms)
      ensures FindUncached([a], el, event, phase)
              == Some(Match(a.value, ActionCalls.ParseActionCall(a.value), NonEmpty(ms), el))
    {
      FirstWrittenAnswers([a], el, event, phase, 0, ms);
    }
    assert !Hears(if "capture" in ms then Bubble else Capture, ms);
  }
}
