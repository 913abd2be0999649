/** CSV export with a separator of any length: which separators lose nothing. */
module CsvSeparators {
  import opened Prelude
  import opened Csv

  /** Some proper part of `s`, not empty, is both its beginning and its end. */
  ghost predicate Bordered(s: string) { exists m :: BorderAt(s, m) }

  predicate BorderAt(s: string, m: nat) { 0 < m < |s| && s[..m] == s[|s| - m..] }

  /** Exactly the separators without a quote that lose nothing. A carriage return marks every place where such a
      separator stands, because no cell shows one outside quotes. */
  ghost predicate Telling(sep: string) {
    sep != "" && ('\r' in sep || ('\n' !in sep && !Bordered(sep)))
  }

  // ---- strings ------------------------------------------------------------------------------------

  lemma {:induction false} ContainsAt(s: string, part: string, i: nat)
    requires i + |part| <= |s| && s[i..i + |part|] == part
    ensures Contains(s, part)
    decreases i
  {
    if i > 0 {
      assert s[1..][i - 1..i - 1 + |part|] == part;
      ContainsAt(s[1..], part, i - 1);
    }
  }

  lemma {:induction false} ShorterDoesNotContain(s: string, part: string)
    requires |s| < |part|
    ensures !Contains(s, part)
  {
    if s != "" { ShorterDoesNotContain(s[1..], part); }
  }

  predicate Plain(s: string) { '"' !in s && '\n' !in s && '\r' !in s }

  /** The first carriage return, before which there is no quote. */
  predicate ReturnAt(s: string, i: nat) {
    i < |s| && s[i] == '\r' && forall k :: 0 <= k < i ==> s[k] != '\r' && s[k] != '"'
  }

  lemma ReturnIsFirst(s: string, i: nat, j: nat)
    requires ReturnAt(s, i) && ReturnAt(s, j)
    ensures i == j
  {
  }

  lemma {:induction false} FindReturn(s: string) returns (i: nat)
    requires '\r' in s && '"' !in s
    ensures ReturnAt(s, i)
  {
    if s[0] == '\r' {
      i := 0;
    } else {
      i := FindReturn(s[1..]);
      assert forall k :: 0 < k < |s| ==> s[k] == s[1..][k - 1];
      i := i + 1;
    }
  }

  /** Behind a part without quotes and returns, or in front of anything, the first return stays the first. */
  lemma ReturnShifts(a: string, b: string, i: nat)
    requires '\r' !in a && '"' !in a
    ensures ReturnAt(a + b, |a| + i) <==> ReturnAt(b, i)
  {
    var s := a + b;
    assert forall k :: 0 <= k < |b| ==> s[|a| + k] == b[k];
    assert forall k :: 0 <= k < |a| ==> s[k] == a[k];
  }

  lemma ReturnIsBehind(a: string, b: string, i: nat)
    requires Plain(a) && ReturnAt(a + b, i)
    ensures i >= |a| && ReturnAt(b, i - |a|)
  {
    assert forall k :: 0 <= k < |a| ==> (a + b)[k] == a[k];
    ReturnShifts(a, b, i - |a|);
  }

  lemma ReturnStays(a: string, b: string, i: nat)
    requires ReturnAt(a, i)
    ensures ReturnAt(a + b, i)
  {
  }

  // ---- where the separator can stand -----------------------------------------------------------------

  lemma PlainCell(cell: string, sep: string)
    ensures NeedsQuotes(cell, sep) ==> EscapeCell(cell, sep) == ['"'] + (DoubleQuotes(cell) + ['"'])
    ensures !NeedsQuotes(cell, sep) ==> EscapeCell(cell, sep) == cell && Plain(cell) && !Contains(cell, sep)
  {
  }

  lemma AfterShowsNoQuote(table: seq<seq<string>>, sep: string)
    requires Proper(table) && '"' !in sep && sep != ""
    ensures After(table, sep) != "" ==> After(table, sep)[0] != '"'
  {
    if |table[0]| > 1 { assert After(table, sep)[0] == sep[0]; }
  }

  /** A quote at the beginning tells that the first cell is quoted. */
  lemma QuoteShows(table: seq<seq<string>>, sep: string, text: string)
    requires Proper(table) && '"' !in sep && sep != "" && text == PrintTable(table, sep)
    ensures NeedsQuotes(table[0][0], sep) <==> text != "" && text[0] == '"'
  {
    var cell := table[0][0];
    PrintUnfolds(table, sep);
    PlainCell(cell, sep);
    AfterShowsNoQuote(table, sep);
    if !NeedsQuotes(cell, sep) && cell != "" { assert text[0] == cell[0]; }
  }

  /** The first return outside quotes belongs to a separator, so it is not earlier than in the separator. */
  lemma {:induction false} ReturnNeedsSeparator(table: seq<seq<string>>, sep: string, r: nat, i: nat)
    requires Proper(table) && '"' !in sep && ReturnAt(sep, r) && ReturnAt(PrintTable(table, sep), i)
    ensures i >= r
    decreases |PrintTable(table, sep)|, 1
  {
    var cell, after, text := table[0][0], After(table, sep), PrintTable(table, sep);
    QuoteShows(table, sep, text);
    PrintUnfolds(table, sep);
    PlainCell(cell, sep);
    if !NeedsQuotes(cell, sep) {
      ReturnIsBehind(cell, after, i);
      AfterReturn(table, sep, r, i - |cell|);
    }
  }

  lemma AfterReturn(table: seq<seq<string>>, sep: string, r: nat, i: nat)
    requires Proper(table) && '"' !in sep && ReturnAt(sep, r) && ReturnAt(After(table, sep), i)
    ensures i >= r
    decreases |After(table, sep)|, 0
  {
    if |table[0]| > 1 {
      ReturnStays(sep, PrintTable(Rest(table), sep), r);
      ReturnIsFirst(After(table, sep), r, i);
    } else {
      assert i > 0 by { assert After(table, sep)[0] == '\n'; }
      ReturnShifts(['\n'], PrintTable(Rest(table), sep), i - 1);
      PrintUnfolds(table, sep);
      ReturnNeedsSeparator(Rest(table), sep, r, i - 1);
    }
  }

  // ---- cutting the text is unambiguous -----------------------------------------------------------------

  /** Where a quoted cell ends is clear, as no quote follows it. */
  lemma {:induction false} QuotedCellEnds(c: string, x: string, d: string, y: string)
    requires DoubleQuotes(c) + (['"'] + x) == DoubleQuotes(d) + (['"'] + y)
    requires (x != "" ==> x[0] != '"') && (y != "" ==> y[0] != '"')
    ensures c == d && x == y
    decreases |c|
  {
    var s, t := DoubleQuotes(c) + (['"'] + x), DoubleQuotes(d) + (['"'] + y);
    HeadOfQuoted(c, x);
    HeadOfQuoted(d, y);
    if c == "" || d == "" {
      assert c == d;
      assert x == s[1..] && y == t[1..];
    } else {
      assert c[0] == d[0];
      var n := if c[0] == '"' then 2 else 1;
      assert s[n..] == t[n..];
      QuotedCellEnds(c[1..], x, d[1..], y);
      assert c == [c[0]] + c[1..] && d == [d[0]] + d[1..];
    }
  }

  /** The first two characters tell whether the cell goes on. */
  lemma HeadOfQuoted(c: string, x: string)
    requires x != "" ==> x[0] != '"'
    ensures var s := DoubleQuotes(c) + (['"'] + x);
      if c == "" then s == ['"'] + x
      else if c[0] == '"' then |s| > 1 && s[0] == '"' && s[1] == '"' && s[2..] == DoubleQuotes(c[1..]) + (['"'] + x)
      else s[0] == c[0] && s[1..] == DoubleQuotes(c[1..]) + (['"'] + x)
  {
    if c != "" {
      var head := if c[0] == '"' then ['"', '"'] else [c[0]];
      var rest, close := DoubleQuotes(c[1..]), ['"'] + x;
      assert DoubleQuotes(c) == head + rest;
      Associates(head, rest, close);
      DropHead(head, rest + close);
    }
  }

  lemma DropHead(a: string, b: string)
    requires a != ""
    ensures (a + b)[|a|..] == b && (a + b)[0] == a[0] && (|a| > 1 ==> (a + b)[1] == a[1])
  {
  }

  /** What follows a cell: nothing, a line end, or a separator. */
  lemma AfterForms(table: seq<seq<string>>, sep: string, r: string)
    requires Proper(table) && r == After(table, sep)
    ensures r == "" || r == ['\n'] + PrintTable(Rest(table), sep) || r == sep + PrintTable(Rest(table), sep)
    ensures Rest(table) != [] ==> Proper(Rest(table))
    ensures r != "" && |table[0]| == 1 ==> r == ['\n'] + PrintTable(Rest(table), sep)
    ensures |table[0]| > 1 ==> r == sep + PrintTable(Rest(table), sep)
    ensures r == "" && sep != "" ==> |table| == |table[0]| == 1
  {
    PrintUnfolds(table, sep);
  }

  lemma {:induction false} ContainsInSuffix(s: string, i: nat, part: string)
    requires i <= |s| && Contains(s[i..], part)
    ensures Contains(s, part)
    decreases i
  {
    if i > 0 {
      assert s[i..] == s[1..][i - 1..];
      ContainsInSuffix(s[1..], i - 1, part);
    }
  }

  /** A separator with a carriage return is found by it. */
  lemma ReturnTells(t: seq<seq<string>>, sep: string, x: string, e: string)
    requires Proper(t) && '"' !in sep && '\r' in sep && Plain(e) && sep + x == e + After(t, sep)
    ensures e == ""
  {
    var r := FindReturn(sep);
    ReturnStays(sep, x, r);
    ReturnIsBehind(e, After(t, sep), r);
    AfterReturn(t, sep, r, r - |e|);
  }

  /** Only one with a border can overlap another one. */
  lemma BorderTells(t: seq<seq<string>>, sep: string, x: string, e: string)
    requires Proper(t) && '\n' !in sep && sep != "" && sep + x == e + After(t, sep)
    ensures e == "" || Contains(e, sep) || Bordered(sep)
  {
    var b := After(t, sep);
    if |e| >= |sep| {
      assert e[0..0 + |sep|] == (sep + x)[..|sep|] == sep;
      ContainsAt(e, sep, 0);
    } else {
      var f := LongerPart(e, b, sep, x);
      assert b[0] == f[0] == sep[|e|];
      AfterForms(t, sep, b);
      var y := PrintTable(Rest(t), sep);
      assert f + x == sep + y;
      assert f == sep[|e|..] && f == (sep + y)[..|f|] == sep[..|f|];
      if e != "" { assert BorderAt(sep, |f|); }
    }
  }

  /** An unquoted cell cannot go on where the other one has ended. */
  lemma UnquotedCellEnds(s: seq<seq<string>>, t: seq<seq<string>>, sep: string, c: string, d: string)
    requires Proper(s) && Proper(t) && '"' !in sep && Telling(sep)
    requires Plain(c) && Plain(d) && !Contains(d, sep)
    requires c + After(s, sep) == d + After(t, sep)
    ensures |c| >= |d|
  {
    if |c| < |d| {
      var a, b := After(s, sep), After(t, sep);
      var e := LongerPart(c, a, d, b);
      assert forall k :: 0 <= k < |e| ==> e[k] == d[|c| + k];
      assert a[0] == e[0] && e[0] in d;
      AfterForms(s, sep, a);
      assert d[|c|..] == e;
      var x := PrintTable(Rest(s), sep);
      if '\r' in sep {
        ReturnTells(t, sep, x, e);
      } else {
        BorderTells(t, sep, x, e);
        ContainsInSuffix(d, |c|, sep);
      }
    }
  }

  /** Two tables printed alike have the same first cell, and the same text follows it. */
  lemma FirstCellIsClear(s: seq<seq<string>>, t: seq<seq<string>>, sep: string)
    requires Proper(s) && Proper(t) && '"' !in sep && Telling(sep) && PrintTable(s, sep) == PrintTable(t, sep)
    ensures s[0][0] == t[0][0] && After(s, sep) == After(t, sep)
  {
    var c, d, a, b := s[0][0], t[0][0], After(s, sep), After(t, sep);
    PrintUnfolds(s, sep);
    PrintUnfolds(t, sep);
    PlainCell(c, sep);
    PlainCell(d, sep);
    QuoteShows(s, sep, PrintTable(s, sep));
    QuoteShows(t, sep, PrintTable(t, sep));
    if NeedsQuotes(c, sep) {
      AfterShowsNoQuote(s, sep);
      AfterShowsNoQuote(t, sep);
      QuotedText(c, a);
      QuotedText(d, b);
      QuotedCellEnds(c, a, d, b);
    } else {
      UnquotedCellEnds(s, t, sep, c, d);
      UnquotedCellEnds(t, s, sep, d, c);
      AppendCancels(c, a, d, b);
    }
  }

  lemma QuotedText(c: string, a: string)
    ensures (['"'] + (DoubleQuotes(c) + ['"']) + a)[1..] == DoubleQuotes(c) + (['"'] + a)
  {
  }

  /** A line end is no separator, even if the separator begins with one. */
  lemma LineEndIsClear(s: seq<seq<string>>, sep: string, x: string)
    requires Proper(s) && '"' !in sep && Telling(sep) && After(s, sep) == sep + x
    ensures |s[0]| > 1
  {
    AfterForms(s, sep, sep + x);
    assert (sep + x)[0] == sep[0];
    if sep[0] == '\n' && |s[0]| == 1 {
      var r := FindReturn(sep);
      ReturnStays(sep, x, r);
      ReturnShifts(['\n'], PrintTable(Rest(s), sep), r - 1);
      ReturnNeedsSeparator(Rest(s), sep, r, r - 1);
    }
  }

  lemma {:induction false} TellingIsFaithful(s: seq<seq<string>>, t: seq<seq<string>>, sep: string)
    requires Proper(s) && Proper(t) && '"' !in sep && Telling(sep) && PrintTable(s, sep) == PrintTable(t, sep)
    ensures s == t
    decreases |PrintTable(s, sep)|
  {
    var a := After(s, sep);
    FirstCellIsClear(s, t, sep);
    AfterForms(s, sep, a);
    AfterForms(t, sep, a);
    if a != "" {
      if |s[0]| > 1 { LineEndIsClear(t, sep, PrintTable(Rest(s), sep)); }
      if |t[0]| > 1 { LineEndIsClear(s, sep, PrintTable(Rest(t), sep)); }
      var n := if |s[0]| > 1 then |sep| else 1;
      assert a[n..] == PrintTable(Rest(s), sep) == PrintTable(Rest(t), sep);
      PrintUnfolds(s, sep);
      TellingIsFaithful(Rest(s), Rest(t), sep);
    }
    SameFirstSameRest(s, t);
  }

  lemma SameFirstSameRest(s: seq<seq<string>>, t: seq<seq<string>>)
    requires Proper(s) && Proper(t) && s[0][0] == t[0][0] && Rest(s) == Rest(t) && (|s[0]| > 1 <==> |t[0]| > 1)
    ensures s == t
  {
    assert s[0] == [s[0][0]] + s[0][1..] && t[0] == [t[0][0]] + t[0][1..];
    assert s == [s[0]] + s[1..] && t == [t[0]] + t[1..];
    if |s[0]| > 1 {
      assert Rest(s)[0] == s[0][1..] && Rest(s)[1..] == s[1..];
      assert Rest(t)[0] == t[0][1..] && Rest(t)[1..] == t[1..];
    }
  }

  // ---- the others lose cells ----------------------------------------------------------------------------

  lemma EmptyLosesCells()
    ensures !PrintsFaithfully("")
  {
    var s, t := [["", ""]], [["\""]];
    PrintsTwoCells("", "", "");
    PrintsOneCell("\"", "");
    assert DoubleQuotes("\"") == "\"\"" && DoubleQuotes("") == "";
    assert PrintTable(s, "") == PrintTable(t, "");
    assert Proper(s) && Proper(t) && |s[0]| != |t[0]|;
  }

  lemma ShortPlainCell(x: string, sep: string)
    requires Plain(x) && |x| < |sep|
    ensures EscapeCell(x, sep) == x
  {
    ShorterDoesNotContain(x, sep);
  }

  /** Two separators that overlap can be cut either way. */
  lemma BorderLosesCells(sep: string, m: nat)
    requires '"' !in sep && '\n' !in sep && '\r' !in sep && BorderAt(sep, m)
    ensures !PrintsFaithfully(sep)
  {
    var n := |sep|;
    var x, y := sep[..n - m], sep[m..];
    assert x + sep == sep + y by {
      assert sep == x + sep[n - m..] && sep == sep[..m] + y;
      Associates(x, sep[..m], y);
    }
    ShortPlainCell(x, sep);
    ShortPlainCell(y, sep);
    ShortPlainCell("", sep);
    var s, t := [[x, ""]], [["", y]];
    PrintsTwoCells(x, "", sep);
    PrintsTwoCells("", y, sep);
    assert x + sep + "" == "" + sep + y;
    assert PrintTable(s, sep) == PrintTable(t, sep);
    assert Proper(s) && Proper(t) && s[0][0] != t[0][0];
  }

  /** The pieces between the line feeds. */
  function Lines(s: string): (r: seq<string>)
    ensures r != [] && ('\n' in s ==> |r| > 1)
    ensures forall i :: 0 <= i < |r| ==> '\n' !in r[i] && |r[i]| <= |s| && forall c :: c in r[i] ==> c in s
    ensures |r| > 1 ==> forall i :: 0 <= i < |r| ==> |r[i]| < |s|
  {
    if s == "" then [""]
    else
      var r := Lines(s[1..]);
      if s[0] == '\n' then [""] + r else [[s[0]] + r[0]] + r[1..]
  }

  lemma {:induction false} LinesJoin(s: string)
    ensures Join(Lines(s), "\n") == s
  {
    if s != "" {
      var r := Lines(s[1..]);
      LinesJoin(s[1..]);
      if s[0] == '\n' {
        assert ([""] + r)[1..] == r;
      } else {
        var t := [[s[0]] + r[0]] + r[1..];
        assert t[1..] == r[1..];
        if |r| > 1 { Associates([s[0]], r[0], "\n" + Join(r[1..], "\n")); }
        assert s == [s[0]] + s[1..];
      }
    }
  }

  function AsColumn(cells: seq<string>): (r: seq<seq<string>>)
    ensures |r| == |cells| && forall i :: 0 <= i < |r| ==> r[i] == [cells[i]]
  {
    seq(|cells|, i requires 0 <= i < |cells| => [cells[i]])
  }

  /** A separator with a line feed prints like the lines it consists of. */
  lemma LineFeedLosesCells(sep: string)
    requires '"' !in sep && '\n' in sep && '\r' !in sep
    ensures !PrintsFaithfully(sep)
  {
    var pieces := Lines(sep);
    var s, t := [["", ""]], AsColumn(pieces);
    forall i | 0 <= i < |pieces| ensures PrintLine(t[i], sep) == pieces[i] {
      ShortPlainCell(pieces[i], sep);
      PrintsOneCell(pieces[i], sep);
    }
    assert seq(|t|, i requires 0 <= i < |t| => PrintLine(t[i], sep)) == pieces;
    LinesJoin(sep);
    PrintsTwoCells("", "", sep);
    ShortPlainCell("", sep);
    assert "" + sep + "" == sep;
    assert PrintTable(s, sep) == PrintTable(t, sep);
    assert Proper(s) && Proper(t) && |s| != |t|;
  }

  /** A separator without quotes loses nothing if and only if it is not empty and contains a carriage return or else
      neither a line feed nor a border. */
  lemma FaithfulIffTelling(sep: string)
    requires '"' !in sep
    ensures PrintsFaithfully(sep) <==> Telling(sep)
  {
    if Telling(sep) {
      forall s, t | Proper(s) && Proper(t) && PrintTable(s, sep) == PrintTable(t, sep) ensures s == t {
        TellingIsFaithful(s, t, sep);
      }
    } else if sep == "" {
      EmptyLosesCells();
    } else if '\n' in sep {
      LineFeedLosesCells(sep);
    } else {
      var m :| BorderAt(sep, m);
      BorderLosesCells(sep, m);
    }
  }
}
