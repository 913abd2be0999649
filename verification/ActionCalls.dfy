/** Action calls in attribute values: `name(arg, ...)` split into the name and its argument expressions. */
module ActionCalls {
  import opened Prelude

  // ---- trimming ---------------------------------------------------------------------------------

  /** The white space and line terminators that `String.prototype.trim` strips. */
  predicate IsSpace(c: char) {
    || '\t' <= c <= '\r' || c == ' ' || c == '\U{A0}' || c == '\U{1680}' || '\U{2000}' <= c <= '\U{200A}'
    || c == '\U{2028}' || c == '\U{2029}' || c == '\U{202F}' || c == '\U{205F}' || c == '\U{3000}' || c == '\U{FEFF}'
  }

  function TrimStart(s: string): string {
    if s != "" && IsSpace(s[0]) then TrimStart(s[1..]) else s
  }

  function TrimEnd(s: string): string {
    if s != "" && IsSpace(Last(s)) then TrimEnd(Front(s)) else s
  }

  function Trim(s: string): string { TrimEnd(TrimStart(s)) }

  /** Nothing to trim, and not empty. */
  predicate Solid(s: string) { s != "" && !IsSpace(s[0]) && !IsSpace(Last(s)) }

  lemma TrimSolid(s: string)
    requires Solid(s)
    ensures Trim(s) == s
  {
  }

  lemma TrimSpaceBefore(s: string)
    requires Solid(s)
    ensures Trim(" " + s) == s
  {
    var t := " " + s;
    assert t[0] == ' ' && IsSpace(t[0]) && t[1..] == s;
    assert TrimStart(t) == TrimStart(s);
  }

  /** Trimming keeps a solid beginning and only shortens. */
  lemma {:induction false} TrimKeepsPrefix(t: string, u: string)
    requires Solid(t)
    ensures t <= Trim(t + u) <= t + u
  {
    TrimEndKeepsPrefix(t, u);
    assert (t + u)[0] == t[0];
  }

  lemma {:induction false} TrimEndKeepsPrefix(t: string, u: string)
    requires Solid(t)
    ensures t <= TrimEnd(t + u) <= t + u
    decreases |u|
  {
    if u == "" {
      assert t + u == t;
    } else if IsSpace(Last(u)) {
      assert Front(t + u) == t + Front(u);
      TrimEndKeepsPrefix(t, Front(u));
    }
  }

  // ---- splitting -----------------------------------------------------------------------------------

  predicate IsQuote(c: char) { c == '"' || c == '\'' || c == '`' }

  predicate IsOpen(c: char) { c == '(' || c == '[' || c == '{' }

  predicate IsClose(c: char) { c == ')' || c == ']' || c == '}' }

  /** A non-blank piece, trimmed. */
  function Keep(piece: string): seq<string> { if Trim(piece) == "" then [] else [Trim(piece)] }

  /** The rest `s` of the text, with `current` read of the present piece, at a bracket depth and perhaps inside a
      string. */
  function Split(s: string, current: string, depth: int, quote: Option<char>): seq<string>
    decreases |s|
  {
    if s == "" then Keep(current)
    else
      var c, next := s[0], current + [s[0]];
      if quote.Some? then
        if c == '\\' then (if |s| == 1 then Keep(next) else Split(s[2..], next + [s[1]], depth, quote))
        else Split(s[1..], next, depth, if c == quote.value then None else quote)
      else if IsQuote(c) then Split(s[1..], next, depth, Some(c))
      else if IsOpen(c) then Split(s[1..], next, depth + 1, None)
      else if IsClose(c) then Split(s[1..], next, depth - 1, None)
      else if c == ',' && depth == 0 then Keep(current) + Split(s[1..], "", 0, None)
      else Split(s[1..], next, depth, None)
  }

  /** Reading one character moves it from the rest to the current piece. */
  lemma Slices(s: string, start: nat, i: nat)
    requires start <= i < |s|
    ensures s[i..][0] == s[i] && s[i..][1..] == s[i + 1..] && s[start..i] + [s[i]] == s[start..i + 1]
    ensures s[i + 1..i + 1] == ""
    ensures if i + 1 < |s| then s[i..][1] == s[i + 1] && s[i..][2..] == s[i + 2..] &&
      s[start..i + 1] + [s[i + 1]] == s[start..i + 2]
            else s[start..i + 1] == s[start..]
  {
  }

  method SplitActionArgs(argsStr: string) returns (args: seq<string>)
    ensures args == Split(argsStr, "", 0, None)
  {
    args := [];
    var depth, inString, start, i := 0, None, 0, 0;
    ghost var all := Split(argsStr, "", 0, None);
    while i < |argsStr|
      invariant 0 <= start <= |argsStr| && start <= i <= |argsStr| + 1
      invariant i <= |argsStr| ==> all == args + Split(argsStr[i..], argsStr[start..i], depth, inString)
      invariant i > |argsStr| ==> all == args + Keep(argsStr[start..])
    {
      var ch := argsStr[i];
      Slices(argsStr, start, i);
      if inString.Some? {
        if ch == '\\' {
          i := i + 2;
          continue;
        }
        if ch == inString.value {
          inString := None;
        }
      } else if IsQuote(ch) {
        inString := Some(ch);
      } else if IsOpen(ch) {
        depth := depth + 1;
      } else if IsClose(ch) {
        depth := depth - 1;
      } else if ch == ',' && depth == 0 {
        args := PushPiece(args, argsStr[start..i], Split(argsStr[i + 1..], "", 0, None));
        start := i + 1;
      }
      i := i + 1;
    }
    if i == |argsStr| {
      assert argsStr[i..] == "" && argsStr[start..i] == argsStr[start..];
    }
    args := PushPiece(args, argsStr[start..], []);
  }

  /** Appends a piece, trimmed, unless it is blank. */
  method PushPiece(args: seq<string>, piece: string, ghost rest: seq<string>) returns (r: seq<string>)
    ensures r == args + Keep(piece) && r + rest == args + (Keep(piece) + rest)
  {
    r := args;
    var arg := Trim(piece);
    if |arg| > 0 {
      r := r + [arg];
    }
  }

  // ---- parsing a call ---------------------------------------------------------------------------------

  /** `args` is None for a name without parentheses. */
  datatype ParsedCall = ParsedCall(name: string, args: Option<seq<string>>)

  /** The position of the first `c`, or -1. */
  function FirstIndex(s: string, c: char): (i: int)
    ensures -1 <= i < |s|
    ensures i == -1 ==> c !in s
    ensures i >= 0 ==> s[i] == c && c !in s[..i]
  {
    if s == "" then -1
    else if s[0] == c then 0
    else
      var r := FirstIndex(s[1..], c);
      assert s == [s[0]] + s[1..];
      assert r >= 0 ==> s[..1 + r] == [s[0]] + s[1..][..r];
      if r == -1 then -1 else 1 + r
  }

  /** The position of the last `c`, or -1. */
  function LastIndex(s: string, c: char): (i: int)
    ensures -1 <= i < |s|
    ensures i == -1 ==> c !in s
    ensures i >= 0 ==> s[i] == c && c !in s[i + 1..]
  {
    if s == "" then -1
    else if Last(s) == c then |s| - 1
    else
      var r := LastIndex(Front(s), c);
      assert s == Front(s) + [Last(s)];
      assert r >= 0 ==> s[r + 1..] == Front(s)[r + 1..] + [Last(s)];
      r
  }

  function ParseActionCall(attr: string): ParsedCall {
    var trimmed := Trim(attr);
    var open := FirstIndex(trimmed, '(');
    if open == -1 then ParsedCall(trimmed, None)
    else
      var name := Trim(trimmed[..open]);
      var close := LastIndex(trimmed, ')');
      if name == "" || close == -1 || close < open then ParsedCall(trimmed, None)
      else
        var args := Trim(trimmed[open + 1..close]);
        ParsedCall(name, Some(if args == "" then [] else Split(args, "", 0, None)))
  }

  lemma IndexBounds(s: string, c: char, k: nat)
    requires k < |s| && s[k] == c
    ensures 0 <= FirstIndex(s, c) <= k <= LastIndex(s, c)
  {
    var first, last := FirstIndex(s, c), LastIndex(s, c);
    assert c in s;
    assert forall i :: 0 <= i < first ==> s[i] == s[..first][i] != c;
    assert forall i :: last < i < |s| ==> s[i] == s[last + 1..][i - last - 1] != c;
  }

  lemma BeginningIsNotBlank(s: string, i: nat)
    requires Solid(s) && 0 < i <= |s|
    ensures Trim(s[..i]) != ""
  {
    assert s[..i] == [s[0]] + s[1..i];
    TrimKeepsPrefix([s[0]], s[1..i]);
  }

  /** A text without blanks around it is a call exactly if some parenthesis opens before another closes, and not at the
      very beginning; any other is a name as a whole. */
  lemma IsCallIff(s: string)
    requires Solid(s)
    ensures ParseActionCall(s).args.Some? <==>
      s[0] != '(' && exists i, j :: 0 <= i < j < |s| && s[i] == '(' && s[j] == ')'
    ensures ParseActionCall(s).args.None? ==> ParseActionCall(s).name == s
  {
    TrimSolid(s);
    var open, close := FirstIndex(s, '('), LastIndex(s, ')');
    if open > 0 { BeginningIsNotBlank(s, open); }
    if s[0] == '(' { IndexBounds(s, '(', 0); }
    if i, j :| 0 <= i < j < |s| && s[i] == '(' && s[j] == ')' {
      IndexBounds(s, '(', i);
      IndexBounds(s, ')', j);
    }
    assert Trim("") == "";
  }

  // ---- printing ---------------------------------------------------------------------------------------

  function PrintCall(name: string, args: seq<string>): string { name + "(" + Join(args, ", ") + ")" }

  // ---- which arguments survive -----------------------------------------------------------------------------

  /** Reading a text from some position: a top-level comma splits it, or it ends at a position, or on a backslash inside
      a string. */
  datatype Scan = Splits | Ends(depth: int, quote: Option<char>) | EndsInEscape

  function ScanText(s: string, depth: int, quote: Option<char>): Scan
    decreases |s|
  {
    if s == "" then Ends(depth, quote)
    else
      var c := s[0];
      if quote.Some? then
        if c == '\\' then (if |s| == 1 then EndsInEscape else ScanText(s[2..], depth, quote))
        else ScanText(s[1..], depth, if c == quote.value then None else quote)
      else if IsQuote(c) then ScanText(s[1..], depth, Some(c))
      else if IsOpen(c) then ScanText(s[1..], depth + 1, None)
      else if IsClose(c) then ScanText(s[1..], depth - 1, None)
      else if c == ',' && depth == 0 then Splits
      else ScanText(s[1..], depth, None)
  }

  /** Brackets balanced, strings closed, no comma outside them. */
  predicate SelfContained(arg: string) { ScanText(arg, 0, None) == Ends(0, None) }

  lemma {:induction false} SplitAfterScan(a: string, rest: string, current: string, depth: int, quote: Option<char>)
    requires ScanText(a, depth, quote).Ends?
    ensures var e := ScanText(a, depth, quote);
      Split(a + rest, current, depth, quote) == Split(rest, current + a, e.depth, e.quote)
    decreases |a|
  {
    if a == "" {
      assert a + rest == rest && current + a == current;
    } else {
      var c, s := a[0], a + rest;
      assert s[1..] == a[1..] + rest && current + [c] + a[1..] == current + a;
      if quote.Some? && c == '\\' {
        assert s[2..] == a[2..] + rest && current + [c] + [a[1]] + a[2..] == current + a;
        SplitAfterScan(a[2..], rest, current + [c] + [a[1]], depth, quote);
      } else if quote.Some? {
        SplitAfterScan(a[1..], rest, current + [c], depth, if c == quote.value then None else quote);
      } else if IsQuote(c) {
        SplitAfterScan(a[1..], rest, current + [c], depth, Some(c));
      } else {
        var d := if IsOpen(c) then depth + 1 else if IsClose(c) then depth - 1 else depth;
        SplitAfterScan(a[1..], rest, current + [c], d, None);
      }
    }
  }

  /** A text that no comma splits is one piece. */
  lemma {:induction false} UnsplitIsOnePiece(a: string, current: string, depth: int, quote: Option<char>)
    requires !ScanText(a, depth, quote).Splits?
    ensures Split(a, current, depth, quote) == Keep(current + a)
    decreases |a|
  {
    if a == "" {
      assert current + a == current;
    } else {
      var c := a[0];
      assert current + [c] + a[1..] == current + a;
      if quote.Some? && c == '\\' {
        if |a| > 1 {
          assert current + [c] + [a[1]] + a[2..] == current + a;
          UnsplitIsOnePiece(a[2..], current + [c] + [a[1]], depth, quote);
        } else {
          assert current + [c] == current + a;
        }
      } else if quote.Some? {
        UnsplitIsOnePiece(a[1..], current + [c], depth, if c == quote.value then None else quote);
      } else if IsQuote(c) {
        UnsplitIsOnePiece(a[1..], current + [c], depth, Some(c));
      } else {
        var d := if IsOpen(c) then depth + 1 else if IsClose(c) then depth - 1 else depth;
        UnsplitIsOnePiece(a[1..], current + [c], d, None);
      }
    }
  }

  /** The first piece contains whatever solid text was already read of it. */
  lemma {:induction false} FirstPieceExtends(s: string, t: string, u: string, depth: int, quote: Option<char>)
    requires Solid(t)
    ensures var r := Split(s, t + u, depth, quote); r != [] && t <= r[0]
    decreases |s|
  {
    TrimKeepsPrefix(t, u);
    if s != "" {
      var c := s[0];
      assert t + u + [c] == t + (u + [c]);
      if quote.Some? && c == '\\' {
        if |s| > 1 {
          assert t + u + [c] + [s[1]] == t + (u + [c] + [s[1]]);
          FirstPieceExtends(s[2..], t, u + [c] + [s[1]], depth, quote);
        } else {
          TrimKeepsPrefix(t, u + [c]);
        }
      } else if quote.Some? {
        FirstPieceExtends(s[1..], t, u + [c], depth, if c == quote.value then None else quote);
      } else if IsQuote(c) {
        FirstPieceExtends(s[1..], t, u + [c], depth, Some(c));
      } else if !(c == ',' && depth == 0) || IsOpen(c) || IsClose(c) {
        var d := if IsOpen(c) then depth + 1 else if IsClose(c) then depth - 1 else depth;
        FirstPieceExtends(s[1..], t, u + [c], d, None);
      }
    }
  }

  predicate AllSolid(args: seq<string>) { forall i :: 0 <= i < |args| ==> Solid(args[i]) }

  /** Every argument but the last is self-contained, and no top-level comma splits the last. */
  predicate Separable(args: seq<string>) {
    forall i :: 0 <= i < |args| ==>
      if i < |args| - 1 then SelfContained(args[i]) else !ScanText(args[i], 0, None).Splits?
  }

  /** Printed arguments, with or without a blank before them, split back into themselves. */
  lemma {:induction false} SplitJoined(args: seq<string>, lead: string)
    requires args != [] && AllSolid(args) && Separable(args) && (lead == "" || lead == " ")
    ensures Split(lead + Join(args, ", "), "", 0, None) == args
    decreases |args|
  {
    var a := args[0];
    SplitLead(lead, Join(args, ", "));
    if |args| == 1 {
      UnsplitIsOnePiece(a, lead, 0, None);
      KeepLed(lead, a);
    } else {
      var rest := " " + Join(args[1..], ", ");
      assert Join(args, ", ") == a + ([','] + rest);
      SplitAfterScan(a, [','] + rest, lead, 0, None);
      assert ([','] + rest)[1..] == rest;
      KeepLed(lead, a);
      SeparableTail(args);
      SplitJoined(args[1..], " ");
    }
  }

  lemma SplitLead(lead: string, s: string)
    requires lead == "" || lead == " "
    ensures Split(lead + s, "", 0, None) == Split(s, lead, 0, None)
  {
    if lead == "" {
      assert lead + s == s;
    } else {
      assert (lead + s)[1..] == s && "" + [' '] == lead;
    }
  }

  lemma KeepLed(lead: string, a: string)
    requires Solid(a) && (lead == "" || lead == " ")
    ensures Keep(lead + a) == [a]
  {
    TrimSolid(a);
    TrimSpaceBefore(a);
    if lead == "" { assert lead + a == a; }
  }

  lemma SeparableTail(args: seq<string>)
    requires |args| > 1
    ensures Separable(args) <==> SelfContained(args[0]) && Separable(args[1..])
    ensures AllSolid(args) ==> AllSolid(args[1..])
  {
    var tail := args[1..];
    if Separable(args) {
      forall i | 0 <= i < |tail| ensures if i < |tail| - 1
        then SelfContained(tail[i]) else !ScanText(tail[i], 0, None).Splits? {
        assert tail[i] == args[i + 1];
      }
    }
    if SelfContained(args[0]) && Separable(tail) {
      forall i | 0 <= i < |args| ensures if i < |args| - 1
        then SelfContained(args[i]) else !ScanText(args[i], 0, None).Splits? {
        if i > 0 { assert args[i] == tail[i - 1]; }
      }
    }
  }

  lemma KeepBlank(lead: string)
    requires lead == "" || lead == " "
    ensures Keep(lead) == []
  {
    if lead != "" {
      assert lead[0] == ' ' && lead[1..] == "";
      assert TrimStart(lead) == TrimStart(lead[1..]) == "";
    }
    assert Trim(lead) == "";
  }

  /** An argument that a top-level comma splits does not come back as the first piece. */
  lemma SplitArgumentIsLost(a: string, rest: string, lead: string)
    requires Solid(a) && ScanText(a, 0, None).Splits? && (lead == "" || lead == " ")
    ensures var r := Split(a + rest, lead, 0, None); r == [] || r[0] != a
  {
    if a[0] == ',' {
      assert (a + rest)[1..] == a[1..] + rest;
      KeepBlank(lead);
      NoPieceStartsWithComma(a[1..] + rest, "");
    } else {
      assert lead + "" == lead && "" + a == a;
      FirstPieceIsShort(a, rest, lead, "", 0, None, a);
    }
  }

  /** A piece read from the top level never begins with a comma. */
  lemma {:induction false} NoPieceStartsWithComma(s: string, blank: string)
    requires Trim(blank) == "" && forall c :: c in blank ==> IsSpace(c)
    ensures var r := Split(s, blank, 0, None); r == [] || (r[0] != "" && r[0][0] != ',')
    decreases |s|
  {
    if s != "" {
      var c := s[0];
      if c == ',' {
        assert Trim("") == "";
        NoPieceStartsWithComma(s[1..], "");
      } else if IsSpace(c) {
        BlankTrims(blank + [c]);
        NoPieceStartsWithComma(s[1..], blank + [c]);
      } else {
        PieceStartsWith(s, blank);
      }
    }
  }

  lemma {:induction false} BlankTrims(s: string)
    requires forall c :: c in s ==> IsSpace(c)
    ensures TrimStart(s) == "" && Trim(s) == ""
  {
    if s != "" { BlankTrims(s[1..]); }
  }

  lemma {:induction false} TrimBlankBefore(blank: string, s: string)
    requires forall c :: c in blank ==> IsSpace(c)
    ensures Trim(blank + s) == Trim(s)
  {
    if blank == "" {
      assert blank + s == s;
    } else {
      assert (blank + s)[1..] == blank[1..] + s;
      TrimBlankBefore(blank[1..], s);
    }
  }

  /** Leading blanks do not change what a piece trims to. */
  lemma {:induction false} SplitIgnoresBlank(s: string, blank: string, u: string, depth: int, quote: Option<char>)
    requires forall c :: c in blank ==> IsSpace(c)
    ensures Split(s, blank + u, depth, quote) == Split(s, u, depth, quote)
    decreases |s|
  {
    TrimBlankBefore(blank, u);
    if s != "" {
      var c := s[0];
      assert blank + u + [c] == blank + (u + [c]);
      TrimBlankBefore(blank, u + [c]);
      if quote.Some? && c == '\\' {
        if |s| > 1 {
          assert blank + u + [c] + [s[1]] == blank + (u + [c] + [s[1]]);
          SplitIgnoresBlank(s[2..], blank, u + [c] + [s[1]], depth, quote);
        }
      } else if quote.Some? {
        SplitIgnoresBlank(s[1..], blank, u + [c], depth, if c == quote.value then None else quote);
      } else if IsQuote(c) {
        SplitIgnoresBlank(s[1..], blank, u + [c], depth, Some(c));
      } else if !(c == ',' && depth == 0) || IsOpen(c) || IsClose(c) {
        var d := if IsOpen(c) then depth + 1 else if IsClose(c) then depth - 1 else depth;
        SplitIgnoresBlank(s[1..], blank, u + [c], d, None);
      }
    }
  }

  lemma PieceStartsWith(s: string, blank: string)
    requires s != "" && !IsSpace(s[0]) && s[0] != ',' && forall c :: c in blank ==> IsSpace(c)
    ensures var r := Split(s, blank, 0, None); r != [] && r[0] != "" && r[0][0] == s[0]
  {
    var t := [s[0]];
    assert blank + "" == blank;
    SplitIgnoresBlank(s, blank, "", 0, None);
    var d := if IsOpen(s[0]) then 1 else if IsClose(s[0]) then -1 else 0;
    assert "" + [s[0]] == t && t + "" == t;
    FirstPieceExtends(s[1..], t, "", d, if IsQuote(s[0]) then Some(s[0]) else None);
  }

  /** A piece that ends at a comma inside `a` is shorter than `a`. */
  lemma {:induction false} FirstPieceIsShort(s: string, rest: string, lead: string, done: string, depth: int,
                                             quote: Option<char>, a: string)
    requires ScanText(s, depth, quote).Splits? && a == done + s && Solid(a) && (lead == "" || lead == " ")
    requires done == "" ==> depth == 0 && quote == None && a[0] != ','
    ensures var r := Split(s + rest, lead + done, depth, quote); r == [] || r[0] != a
    decreases |s|
  {
    var c := s[0];
    assert (s + rest)[1..] == s[1..] + rest && lead + done + [c] == lead + (done + [c]) && done + [c] + s[1..] == a;
    if quote.Some? && c == '\\' {
      assert (s + rest)[2..] == s[2..] + rest && lead + done + [c] + [s[1]] == lead + (done + [c] + [s[1]]);
      assert done + [c] + [s[1]] + s[2..] == a;
      FirstPieceIsShort(s[2..], rest, lead, done + [c] + [s[1]], depth, quote, a);
    } else if quote.Some? {
      FirstPieceIsShort(s[1..], rest, lead, done + [c], depth, if c == quote.value then None else quote, a);
    } else if IsQuote(c) {
      FirstPieceIsShort(s[1..], rest, lead, done + [c], depth, Some(c), a);
    } else if c == ',' && depth == 0 && !IsOpen(c) && !IsClose(c) {
      PieceIsShort(lead, done, a);
    } else {
      var d := if IsOpen(c) then depth + 1 else if IsClose(c) then depth - 1 else depth;
      FirstPieceIsShort(s[1..], rest, lead, done + [c], d, None, a);
    }
  }

  lemma PieceIsShort(lead: string, done: string, a: string)
    requires done != "" && |done| < |a| && done[0] == a[0] && Solid(a) && (lead == "" || lead == " ")
    ensures Keep(lead + done) != [] && Keep(lead + done)[0] != a
  {
    if lead == " " { TrimBlankBefore(" ", done); } else { assert lead + done == done; }
    TrimShortens(done);
    TrimKeepsPrefix([done[0]], done[1..]);
    assert [done[0]] + done[1..] == done;
  }

  lemma {:induction false} TrimShortens(s: string)
    ensures |Trim(s)| <= |s|
  {
    TrimStartShortens(s);
    TrimEndShortens(TrimStart(s));
  }

  lemma {:induction false} TrimStartShortens(s: string)
    ensures |TrimStart(s)| <= |s|
  {
    if s != "" && IsSpace(s[0]) { TrimStartShortens(s[1..]); }
  }

  lemma {:induction false} TrimEndShortens(s: string)
    ensures |TrimEnd(s)| <= |s|
  {
    if s != "" && IsSpace(Last(s)) { TrimEndShortens(Front(s)); }
  }

  /** After a text that ends on a backslash inside a string, the next character is skipped with it. */
  lemma {:induction false} SplitAfterEscape(a: string, c: char, rest: string, current: string, depth: int,
                                            quote: Option<char>)
    returns (d: int, q: Option<char>)
    requires ScanText(a, depth, quote).EndsInEscape?
    ensures Split(a + ([c] + rest), current, depth, quote) == Split(rest, current + a + [c], d, q)
    decreases |a|
  {
    var x, s := a[0], a + ([c] + rest);
    assert s[1..] == a[1..] + ([c] + rest) && current + [x] + a[1..] == current + a;
    if quote.Some? && x == '\\' {
      if |a| == 1 {
        d, q := depth, quote;
        assert s[1] == c && s[2..] == rest && current + [x] + [c] == current + a + [c];
      } else {
        assert s[2..] == a[2..] + ([c] + rest) && current + [x] + [a[1]] + a[2..] == current + a;
        d, q := SplitAfterEscape(a[2..], c, rest, current + [x] + [a[1]], depth, quote);
      }
    } else if quote.Some? {
      d, q := SplitAfterEscape(a[1..], c, rest, current + [x], depth, if x == quote.value then None else quote);
    } else if IsQuote(x) {
      d, q := SplitAfterEscape(a[1..], c, rest, current + [x], depth, Some(x));
    } else {
      var e := if IsOpen(x) then depth + 1 else if IsClose(x) then depth - 1 else depth;
      d, q := SplitAfterEscape(a[1..], c, rest, current + [x], e, None);
    }
  }

  /** An argument that is still open where it ends swallows the comma that should end it. */
  lemma OpenArgumentIsLost(a: string, rest: string, lead: string)
    requires Solid(a) && !SelfContained(a) && !ScanText(a, 0, None).Splits? && (lead == "" || lead == " ")
    ensures var r := Split(a + ([','] + rest), lead, 0, None); r == [] || r[0] != a
  {
    var t := a + [','];
    assert Solid(t);
    assert lead + "" == lead;
    SplitIgnoresBlank(a + ([','] + rest), lead, "", 0, None);
    assert "" + a == a && t + "" == t;
    var e := ScanText(a, 0, None);
    if e.Ends? {
      SplitAfterScan(a, [','] + rest, "", 0, None);
      assert ([','] + rest)[1..] == rest;
      FirstPieceExtendsComma(rest, a, e.depth, e.quote);
    } else {
      var d, q := SplitAfterEscape(a, ',', rest, "", 0, None);
      FirstPieceExtends(rest, t, "", d, q);
    }
  }

  lemma FirstPieceExtendsComma(rest: string, a: string, depth: int, quote: Option<char>)
    requires Solid(a) && (depth != 0 || quote.Some?)
    ensures var r := Split([','] + rest, a, depth, quote); r == [] || r[0] != a
  {
    var t := a + [','];
    assert ([','] + rest)[1..] == rest && t + "" == t;
    FirstPieceExtends(rest, t, "", depth, if quote == Some(',') then None else quote);
  }

  /** Which argument lists come back from splitting their printed form: exactly the separable ones. */
  lemma {:induction false} SplitsBackIffSeparable(args: seq<string>, lead: string)
    requires args != [] && AllSolid(args) && (lead == "" || lead == " ")
    ensures Split(lead + Join(args, ", "), "", 0, None) == args <==> Separable(args)
    decreases |args|
  {
    var a := args[0];
    SplitLead(lead, Join(args, ", "));
    if ScanText(a, 0, None).Splits? {
      var rest := if |args| == 1 then "" else [','] + (" " + Join(args[1..], ", "));
      assert Join(args, ", ") == a + rest;
      SplitArgumentIsLost(a, rest, lead);
    } else if |args| == 1 {
      SplitJoined(args, lead);
    } else {
      var rest := " " + Join(args[1..], ", ");
      assert Join(args, ", ") == a + ([','] + rest);
      SeparableTail(args);
      if SelfContained(a) {
        SplitAfterScan(a, [','] + rest, lead, 0, None);
        assert ([','] + rest)[1..] == rest;
        KeepLed(lead, a);
        SplitsBackIffSeparable(args[1..], " ");
        var tail := Split(rest, "", 0, None);
        assert Split(lead + Join(args, ", "), "", 0, None) == [a] + tail;
        assert ([a] + tail)[1..] == tail && [a] + args[1..] == args;
      } else {
        OpenArgumentIsLost(a, rest, lead);
      }
    }
  }

  lemma {:induction false} JoinSolid(args: seq<string>)
    requires args != [] && AllSolid(args)
    ensures Solid(Join(args, ", "))
    decreases |args|
  {
    if |args| > 1 { JoinSolid(args[1..]); }
  }

  lemma {:induction false} IndexOfFirst(a: string, c: char, b: string)
    requires c !in a
    ensures FirstIndex(a + [c] + b, c) == |a|
  {
    if a != "" {
      assert (a + [c] + b)[1..] == a[1..] + [c] + b;
      IndexOfFirst(a[1..], c, b);
    }
  }

  lemma IndexOfLast(a: string, c: char)
    ensures LastIndex(a + [c], c) == |a|
  {
  }

  /** Parsing a printed call gives back the name and the arguments exactly when the arguments are separable: every one
      but the last closes its brackets and strings, and no comma outside them splits any. */
  lemma ParsePrintedCall(name: string, args: seq<string>)
    requires Solid(name) && '(' !in name && AllSolid(args)
    ensures ParseActionCall(PrintCall(name, args)) == ParsedCall(name, Some(args)) <==> Separable(args)
  {
    var joined := Join(args, ", ");
    var s := PrintCall(name, args);
    assert s == name + ['('] + (joined + [')']) && s == (name + ['('] + joined) + [')'];
    assert Solid(s);
    TrimSolid(s);
    IndexOfFirst(name, '(', joined + [')']);
    IndexOfLast(name + ['('] + joined, ')');
    assert s[..|name|] == name && s[|name| + 1..|s| - 1] == joined;
    TrimSolid(name);
    if args != [] {
      JoinSolid(args);
      TrimSolid(joined);
      assert "" + joined == joined;
      SplitsBackIffSeparable(args, "");
    }
  }

  // ---- well-formed arguments ---------------------------------------------------------------------------------

  /** A grammar of argument texts: plain characters, string literals with escapes, and bracketed groups, inside which
      commas are allowed. */
  datatype Unit = Raw(c: char) | Escaped(c: char)

  datatype Part =
    | Plain(c: char)
    | Comma
    | Text(quote: char, body: seq<Unit>)
    | Group(open: char, inside: seq<Part>, close: char)

  function PrintUnits(body: seq<Unit>): string {
    if body == [] then "" else (match body[0] case Raw(c) => [c] case Escaped(c) => ['\\', c]) + PrintUnits(body[1..])
  }

  function PrintPart(p: Part): string
    decreases p, 1
  {
    match p
    case Plain(c) => [c]
    case Comma => ","
    case Text(q, body) => [q] + (PrintUnits(body) + [q])
    case Group(o, inside, c) => [o] + (PrintParts(inside) + [c])
  }

  function PrintParts(ps: seq<Part>): string
    decreases ps, 0
  {
    if ps == [] then "" else PrintPart(ps[0]) + PrintParts(ps[1..])
  }

  /** `nested`: inside some bracket. */
  ghost predicate WellFormedPart(p: Part, nested: bool)
    decreases p, 1
  {
    match p
    case Plain(c) => !IsQuote(c) && !IsOpen(c) && !IsClose(c) && c != ','
    case Comma => nested
    case Text(q, body) => IsQuote(q) && forall u :: u in body && u.Raw? ==> u.c != q && u.c != '\\'
    case Group(o, inside, c) => IsOpen(o) && IsClose(c) && WellFormed(inside, true)
  }

  ghost predicate WellFormed(ps: seq<Part>, nested: bool)
    decreases ps, 0
  {
    ps == [] || (WellFormedPart(ps[0], nested) && WellFormed(ps[1..], nested))
  }

  lemma {:induction false} ScanConcat(a: string, b: string, depth: int, quote: Option<char>)
    requires ScanText(a, depth, quote).Ends?
    ensures var e := ScanText(a, depth, quote); ScanText(a + b, depth, quote) == ScanText(b, e.depth, e.quote)
    decreases |a|
  {
    if a == "" {
      assert a + b == b;
    } else {
      var c, s := a[0], a + b;
      assert s[1..] == a[1..] + b;
      if quote.Some? && c == '\\' {
        assert s[2..] == a[2..] + b;
        ScanConcat(a[2..], b, depth, quote);
      } else if quote.Some? {
        ScanConcat(a[1..], b, depth, if c == quote.value then None else quote);
      } else if IsQuote(c) {
        ScanConcat(a[1..], b, depth, Some(c));
      } else {
        ScanConcat(a[1..], b, if IsOpen(c) then depth + 1 else if IsClose(c) then depth - 1 else depth, None);
      }
    }
  }

  lemma {:induction false} ScanUnits(body: seq<Unit>, q: char, depth: int)
    requires IsQuote(q) && forall u :: u in body && u.Raw? ==> u.c != q && u.c != '\\'
    ensures ScanText(PrintUnits(body), depth, Some(q)) == Ends(depth, Some(q))
    decreases |body|
  {
    if body != [] {
      assert body[0] in body && forall u :: u in body[1..] ==> u in body;
      var s := PrintUnits(body);
      match body[0] {
        case Raw(c) => assert s[1..] == PrintUnits(body[1..]);
        case Escaped(c) => assert s[2..] == PrintUnits(body[1..]);
      }
      ScanUnits(body[1..], q, depth);
    }
  }

  lemma {:induction false} ScanPart(p: Part, depth: nat)
    requires WellFormedPart(p, depth > 0)
    ensures ScanText(PrintPart(p), depth, None) == Ends(depth, None)
    decreases p, 1
  {
    match p
    case Plain(c) => assert [c][1..] == "";
    case Comma => assert ","[1..] == "";
    case Text(q, body) =>
      assert ([q] + (PrintUnits(body) + [q]))[1..] == PrintUnits(body) + [q];
      ScanUnits(body, q, depth);
      ScanConcat(PrintUnits(body), [q], depth, Some(q));
      assert [q][1..] == "";
    case Group(o, inside, c) =>
      assert ([o] + (PrintParts(inside) + [c]))[1..] == PrintParts(inside) + [c];
      ScanParts(inside, depth + 1);
      ScanConcat(PrintParts(inside), [c], depth + 1, None);
      assert [c][1..] == "";
  }

  lemma {:induction false} ScanParts(ps: seq<Part>, depth: nat)
    requires WellFormed(ps, depth > 0)
    ensures ScanText(PrintParts(ps), depth, None) == Ends(depth, None)
    decreases ps, 0
  {
    if ps != [] {
      ScanPart(ps[0], depth);
      ScanConcat(PrintPart(ps[0]), PrintParts(ps[1..]), depth, None);
      ScanParts(ps[1..], depth);
    }
  }

  /** Arguments built by the grammar always survive printing and parsing. */
  lemma WellFormedArgumentsRoundTrip(name: string, trees: seq<seq<Part>>, args: seq<string>)
    requires Solid(name) && '(' !in name && AllSolid(args)
    requires |args| == |trees| && forall i :: 0 <= i < |trees| ==>
      WellFormed(trees[i], false) && args[i] == PrintParts(trees[i])
    ensures ParseActionCall(PrintCall(name, args)) == ParsedCall(name, Some(args))
  {
    forall i | 0 <= i < |args| ensures SelfContained(args[i]) { ScanParts(trees[i], 0); }
    ParsePrintedCall(name, args);
  }
}
