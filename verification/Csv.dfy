/** CSV export of the data table, against a reader for section 2 of RFC 4180 with LF as the line end. */
module Csv {
  import opened Prelude

  // ---- printing ---------------------------------------------------------------------------------

  /** `str.replace(/"/g, '""')`. */
  function DoubleQuotes(s: string): string {
    if s == "" then "" else (if s[0] == '"' then "\"\"" else [s[0]]) + DoubleQuotes(s[1..])
  }

  /** `s.includes(part)`. */
  predicate Contains(s: string, part: string) {
    part <= s || (s != "" && Contains(s[1..], part))
  }

  predicate NeedsQuotes(s: string, sep: string) { '"' in s || Contains(s, sep) || '\n' in s || '\r' in s }

  function EscapeCell(s: string, sep: string): string {
    if NeedsQuotes(s, sep) then "\"" + DoubleQuotes(s) + "\"" else s
  }

  function EscapeRow(cells: seq<string>, sep: string): (r: seq<string>)
    ensures |r| == |cells|
  {
    seq(|cells|, i requires 0 <= i < |cells| => EscapeCell(cells[i], sep))
  }

  function PrintLine(cells: seq<string>, sep: string): string { Join(EscapeRow(cells, sep), sep) }

  function PrintTable(rows: seq<seq<string>>, sep: string): string {
    Join(seq(|rows|, i requires 0 <= i < |rows| => PrintLine(rows[i], sep)), "\n")
  }

  datatype Column = Column(key: string, title: string, hidden: bool)

  /** The columns that are exported: visible ones, narrowed to the selected keys when there are any. */
  function Exported(cols: seq<Column>, selected: Option<seq<string>>): seq<Column> {
    if cols == [] then []
    else
      var keep := !cols[0].hidden && (selected.None? || selected.value == [] || cols[0].key in selected.value);
      (if keep then [cols[0]] else []) + Exported(cols[1..], selected)
  }

  function Titles(cols: seq<Column>): seq<string> { seq(|cols|, i requires 0 <= i < |cols| => cols[i].title) }

  function Cells<Row>(cols: seq<Column>, row: Row, text: (Row, Column) -> string): seq<string> {
    seq(|cols|, i requires 0 <= i < |cols| => text(row, cols[i]))
  }

  /** The cell strings of the export, header first. */
  function Table<Row>(cols: seq<Column>, rows: seq<Row>, text: (Row, Column) -> string, headers: bool)
    : seq<seq<string>>
  {
    (if headers then [Titles(cols)] else []) + seq(|rows|, i requires 0 <= i < |rows| => Cells(cols, rows[i], text))
  }

  const BOM: char := '\U{FEFF}'

  function Marked(bom: bool, text: string): string { if bom then [BOM] + text else text }

  /** `text` is what `String(value ?? '')` yields for a cell. */
  method ExportCsv<Row>(visible: seq<Column>, selected: Option<seq<string>>, rows: seq<Row>,
                        text: (Row, Column) -> string,
                        headers: bool, sep: string, bom: bool) returns (output: string)
    ensures output == Marked(bom, PrintTable(Table(Exported(visible, selected), rows, text, headers), sep))
  {
    var cols := Exported(visible, selected);
    var lines: seq<string> := [];
    ghost var table := Table(cols, rows, text, headers);
    if headers {
      lines := lines + [PrintLine(Titles(cols), sep)];
    }
    ghost var h := |lines|;
    for i := 0 to |rows|
      invariant |lines| == h + i
      invariant forall k :: 0 <= k < |lines| ==> lines[k] == PrintLine(table[k], sep)
    {
      lines := lines + [PrintLine(Cells(cols, rows[i], text), sep)];
    }
    assert lines == seq(|table|, i requires 0 <= i < |table| => PrintLine(table[i], sep));
    var body := Join(lines, "\n");
    output := if bom then [BOM] + body else body;
  }

  // ---- what is printed ----------------------------------------------------------------------------

  predicate StandsAt(s: string, part: string, i: nat) { i + |part| <= |s| && s[i..i + |part|] == part }

  lemma {:induction false} ContainsIff(s: string, part: string)
    ensures Contains(s, part) <==> exists i: nat :: StandsAt(s, part, i)
  {
    if part <= s { assert StandsAt(s, part, 0); }
    if s != "" {
      ContainsIff(s[1..], part);
      forall i: nat ensures StandsAt(s[1..], part, i) <==> StandsAt(s, part, i + 1) {
        if i + 1 + |part| <= |s| { assert s[1..][i..i + |part|] == s[i + 1..i + 1 + |part|]; }
      }
      if i: nat :| StandsAt(s, part, i) {
        if i > 0 { assert StandsAt(s[1..], part, i - 1); } else { assert part == s[..|part|]; }
      }
    }
  }

  lemma {:induction false} DoubledIsNoShorter(s: string)
    ensures |DoubleQuotes(s)| >= |s| && ('"' !in s ==> DoubleQuotes(s) == s)
  {
    if s != "" { DoubledIsNoShorter(s[1..]); }
  }

  /** A cell is printed as it is exactly if there is no quote in it, no line feed, no carriage return, and no separator;
      any other stands in quotes. */
  lemma QuotedIffNeeded(s: string, sep: string)
    ensures EscapeCell(s, sep) == s <==>
      && '"' !in s && '\n' !in s && '\r' !in s
      && forall i: nat :: !StandsAt(s, sep, i)
    ensures EscapeCell(s, sep) != s ==> EscapeCell(s, sep) == ['"'] + DoubleQuotes(s) + ['"']
    ensures '"' !in s ==> DoubleQuotes(s) == s
  {
    ContainsIff(s, sep);
    DoubledIsNoShorter(s);
    assert NeedsQuotes(s, sep) ==> |EscapeCell(s, sep)| > |s|;
  }

  /** The columns are exported in their order: each that is not hidden and, if any keys are selected, whose key is. */
  lemma {:induction false} OneColumnMore(cols: seq<Column>, c: Column, selected: Option<seq<string>>)
    ensures Exported([], selected) == []
    ensures Exported(cols + [c], selected) == Exported(cols, selected) +
      if !c.hidden && (selected.Some? && selected.value != [] ==> c.key in selected.value) then [c] else []
  {
    if cols == [] {
      assert [] + [c] == [c] && [c][1..] == [];
    } else {
      assert (cols + [c])[1..] == cols[1..] + [c];
      OneColumnMore(cols[1..], c, selected);
    }
  }

  /** The titles stand above, if asked for, and in line i, column j what row i shows in that column. */
  lemma TableByPosition<Row>(cols: seq<Column>, rows: seq<Row>, text: (Row, Column) -> string, headers: bool)
    ensures var t, top := Table(cols, rows, text, headers), if headers then 1 else 0;
      && |t| == top + |rows| && (forall i :: 0 <= i < |t| ==> |t[i]| == |cols|)
      && (headers ==> forall j :: 0 <= j < |cols| ==> t[0][j] == cols[j].title)
      && forall i, j :: 0 <= i < |rows| && 0 <= j < |cols| ==> t[top + i][j] == text(rows[i], cols[j])
  {
  }

  // ---- reading ----------------------------------------------------------------------------------

  /** Where the reader stands: at the start of a field, inside an unquoted or a quoted one, or behind a quote that may
      close the field or begin an escaped quote. */
  datatype Mode = Start | Plain | Quoted | QuoteSeen

  datatype Reader = Reading(mode: Mode, field: string, row: seq<string>, rows: seq<seq<string>>) | Malformed

  function EndField(r: Reader): Reader
    requires r.Reading?
  {
    Reading(Start, "", r.row + [r.field], r.rows)
  }

  function EndRow(r: Reader): Reader
    requires r.Reading?
  {
    Reading(Start, "", [], r.rows + [r.row + [r.field]])
  }

  function Feed(r: Reader, c: char, sep: char): Reader {
    if r.Malformed? then r
    else match r.mode
      case Quoted => if c == '"' then r.(mode := QuoteSeen) else r.(field := r.field + [c])
      case QuoteSeen =>
        if c == '"' then r.(mode := Quoted, field := r.field + ['"'])
        else if c == sep then EndField(r)
        else if c == '\n' then EndRow(r)
        else Malformed
      case _ =>
        if c == sep then EndField(r)
        else if c == '\n' then EndRow(r)
        else if c == '"' then (if r.mode == Start then r.(mode := Quoted) else Malformed)
        else r.(mode := Plain, field := r.field + [c])
  }

  function FeedAll(r: Reader, s: string, sep: char): Reader
    decreases |s|
  {
    if s == "" then r else FeedAll(Feed(r, s[0], sep), s[1..], sep)
  }

  const EMPTY_READER := Reading(Start, "", [], [])

  /** The records of the text, or None when it breaks the quoting rules. */
  function Read(text: string, sep: char): Option<seq<seq<string>>> {
    var r := FeedAll(EMPTY_READER, text, sep);
    if r.Malformed? || r.mode == Quoted then None else Some(EndRow(r).rows)
  }

  // ---- the round trip ---------------------------------------------------------------------------

  lemma {:induction false} FeedConcat(r: Reader, a: string, b: string, sep: char)
    ensures FeedAll(r, a + b, sep) == FeedAll(FeedAll(r, a, sep), b, sep)
    decreases |a|
  {
    if a == "" {
      assert a + b == b;
    } else {
      assert (a + b)[1..] == a[1..] + b;
      FeedConcat(Feed(r, a[0], sep), a[1..], b, sep);
    }
  }

  predicate GoodSeparator(sep: char) { sep != '"' && sep != '\n' }

  /** Inside quotes the reader undoes the doubling. */
  lemma {:induction false} ReadsDoubled(r: Reader, s: string, sep: char)
    requires r.Reading? && r.mode == Quoted
    ensures FeedAll(r, DoubleQuotes(s), sep) == r.(field := r.field + s)
    decreases |s|
  {
    if s == "" {
      assert r.field + s == r.field;
    } else {
      var head := if s[0] == '"' then "\"\"" else [s[0]];
      FeedConcat(r, head, DoubleQuotes(s[1..]), sep);
      var r1 := r.(field := r.field + [s[0]]);
      if s[0] == '"' {
        assert head[1..] == ['"'] && head[1..][1..] == "";
        assert FeedAll(r, head, sep) == FeedAll(Feed(Feed(r, '"', sep), '"', sep), "", sep);
      } else {
        assert head[1..] == "";
      }
      assert FeedAll(r, head, sep) == r1;
      ReadsDoubled(r1, s[1..], sep);
      assert r1.field + s[1..] == r.field + s;
    }
  }

  lemma {:induction false} ContainsChar(s: string, c: char)
    ensures Contains(s, [c]) <==> c in s
  {
    if s != "" {
      ContainsChar(s[1..], c);
      assert [c] <= s <==> s[0] == c;
      assert s == [s[0]] + s[1..];
    }
  }

  /** A cell that needs no quotes is read as it stands. */
  lemma {:induction false} ReadsPlain(r: Reader, s: string, sep: char)
    requires r.Reading? && (r.mode == Start || r.mode == Plain) && !NeedsQuotes(s, [sep])
    ensures FeedAll(r, s, sep) == r.(mode := if s == "" then r.mode else Plain, field := r.field + s)
    decreases |s|
  {
    if s == "" {
      assert r.field + s == r.field;
    } else {
      assert s[0] in s && forall c :: c in s[1..] ==> c in s;
      ContainsChar(s, sep);
      ContainsChar(s[1..], sep);
      ReadsPlain(Feed(r, s[0], sep), s[1..], sep);
      assert r.field + [s[0]] + s[1..] == r.field + s;
    }
  }

  /** The reader holds exactly the cell, outside any open quote. */
  ghost predicate Holds(r: Reader, s: string, row: seq<string>, rows: seq<seq<string>>) {
    r.Reading? && r.mode != Quoted && r.field == s && r.row == row && r.rows == rows
  }

  lemma ReadsCell(row: seq<string>, rows: seq<seq<string>>, s: string, sep: char)
    requires GoodSeparator(sep)
    ensures Holds(FeedAll(Reading(Start, "", row, rows), EscapeCell(s, [sep]), sep), s, row, rows)
  {
    var r := Reading(Start, "", row, rows);
    if NeedsQuotes(s, [sep]) {
      var q: string, d := "\"", DoubleQuotes(s);
      FeedConcat(r, q + d, q, sep);
      FeedConcat(r, q, d, sep);
      assert q[1..] == "";
      var r1 := Reading(Quoted, "", row, rows);
      assert FeedAll(r, q, sep) == r1;
      ReadsDoubled(r1, s, sep);
      assert "" + s == s;
      assert FeedAll(r1.(field := s), q, sep) == FeedAll(Feed(r1.(field := s), '"', sep), "", sep);
    } else {
      ReadsPlain(r, s, sep);
      assert "" + s == s;
    }
  }

  /** At least one line, and at least one column in each. */
  ghost predicate Proper(table: seq<seq<string>>) { table != [] && forall i :: 0 <= i < |table| ==> table[i] != [] }

  /** A cell and the separator complete a field. */
  lemma ReadsField(row: seq<string>, rows: seq<seq<string>>, s: string, sep: char)
    requires GoodSeparator(sep)
    ensures FeedAll(Reading(Start, "", row, rows), EscapeCell(s, [sep]) + [sep], sep) ==
      Reading(Start, "", row + [s], rows)
  {
    var r, cell := Reading(Start, "", row, rows), EscapeCell(s, [sep]);
    ReadsCell(row, rows, s, sep);
    FeedConcat(r, cell, [sep], sep);
    var q := FeedAll(r, cell, sep);
    assert [sep][1..] == "" && FeedAll(q, [sep], sep) == Feed(q, sep, sep);
  }

  lemma LineOfOne(cells: seq<string>, sep: char)
    requires |cells| == 1
    ensures PrintLine(cells, [sep]) == EscapeCell(cells[0], [sep])
  {
  }

  lemma HeadJoinsFront<T>(before: seq<T>, s: seq<T>)
    requires |s| > 1
    ensures Last(s[1..]) == Last(s) && before + [s[0]] + Front(s[1..]) == before + Front(s)
  {
    assert Front(s) == [s[0]] + Front(s[1..]);
  }

  /** Reading a first part and going on with the rest. */
  lemma ReadsOn(r: Reader, first: string, rest: string, s: Reader, sep: char)
    requires FeedAll(r, first, sep) == s
    ensures FeedAll(r, first + rest, sep) == FeedAll(s, rest, sep)
  {
    FeedConcat(r, first, rest, sep);
  }

  lemma LineTail(cells: seq<string>, sep: string)
    requires |cells| > 1
    ensures PrintLine(cells, sep) == EscapeCell(cells[0], sep) + sep + PrintLine(cells[1..], sep)
  {
    assert EscapeRow(cells, sep)[1..] == EscapeRow(cells[1..], sep);
  }

  /** A printed line, read from the start of a record, leaves its last cell pending behind the others. */
  lemma {:induction false} ReadsLine(row: seq<string>, rows: seq<seq<string>>, cells: seq<string>, sep: char)
    requires GoodSeparator(sep) && cells != []
    ensures Holds(FeedAll(Reading(Start, "", row, rows), PrintLine(cells, [sep]), sep),
                  Last(cells), row + Front(cells), rows)
    decreases |cells|
  {
    if |cells| == 1 {
      LineOfOne(cells, sep);
      ReadsCell(row, rows, cells[0], sep);
      assert row + Front(cells) == row;
    } else {
      var first, tail := EscapeCell(cells[0], [sep]) + [sep], cells[1..];
      LineTail(cells, [sep]);
      ReadsField(row, rows, cells[0], sep);
      var next := Reading(Start, "", row + [cells[0]], rows);
      ReadsOn(Reading(Start, "", row, rows), first, PrintLine(tail, [sep]), next, sep);
      ReadsLine(row + [cells[0]], rows, tail, sep);
      HeadJoinsFront(row, cells);
    }
  }

  /** A printed line and the line end complete a record. */
  lemma ReadsRow(rows: seq<seq<string>>, cells: seq<string>, sep: char)
    requires GoodSeparator(sep) && cells != []
    ensures FeedAll(Reading(Start, "", [], rows), PrintLine(cells, [sep]) + ['\n'], sep) ==
      Reading(Start, "", [], rows + [cells])
  {
    var r, line := Reading(Start, "", [], rows), PrintLine(cells, [sep]);
    ReadsLine([], rows, cells, sep);
    assert [] + Front(cells) == Front(cells) && Front(cells) + [Last(cells)] == cells;
    FeedConcat(r, line, ['\n'], sep);
    var s := FeedAll(r, line, sep);
    assert ['\n'][1..] == "" && FeedAll(s, ['\n'], sep) == Feed(s, '\n', sep);
  }

  lemma {:induction false} ReadsRows(rows: seq<seq<string>>, table: seq<seq<string>>, sep: char)
    requires GoodSeparator(sep) && Proper(table)
    ensures Holds(FeedAll(Reading(Start, "", [], rows), PrintTable(table, [sep]), sep),
                  Last(Last(table)), Front(Last(table)), rows + Front(table))
    decreases |table|
  {
    var r := Reading(Start, "", [], rows);
    if |table| == 1 {
      ReadsLine([], rows, table[0], sep);
      assert [] + Front(table[0]) == Front(table[0]) && rows + Front(table) == rows;
    } else {
      var first, tail := PrintLine(table[0], [sep]) + ['\n'], table[1..];
      LinesTail(table, [sep]);
      ReadsRow(rows, table[0], sep);
      FeedConcat(r, first, PrintTable(tail, [sep]), sep);
      ReadsRows(rows + [table[0]], tail, sep);
      HeadJoinsFront(rows, table);
    }
  }

  lemma LinesTail(table: seq<seq<string>>, sep: string)
    requires |table| > 1
    ensures PrintTable(table, sep) == PrintLine(table[0], sep) + ['\n'] + PrintTable(table[1..], sep)
  {
    var lines := seq(|table|, i requires 0 <= i < |table| => PrintLine(table[i], sep));
    assert lines[1..] == seq(|table[1..]|, i requires 0 <= i < |table[1..]| => PrintLine(table[1..][i], sep));
  }

  /** Reading what was printed gives back every cell, whatever it contains. */
  lemma RoundTrip(table: seq<seq<string>>, sep: char)
    requires GoodSeparator(sep) && Proper(table)
    ensures Read(PrintTable(table, [sep]), sep) == Some(table)
  {
    ReadsRows([], table, sep);
    var last := Last(table);
    assert [] + Front(table) + [last] == table;
    assert Front(last) + [Last(last)] == last;
  }

  // ---- the first cell and what follows -------------------------------------------------------------

  /** The table without its first cell. */
  function Rest(table: seq<seq<string>>): seq<seq<string>>
    requires Proper(table)
  {
    if |table[0]| > 1 then [table[0][1..]] + table[1..] else table[1..]
  }

  /** What is printed behind the first cell. */
  function After(table: seq<seq<string>>, sep: string): string
    requires Proper(table)
  {
    if |table[0]| > 1 then sep + PrintTable(Rest(table), sep)
    else if |table| > 1 then ['\n'] + PrintTable(Rest(table), sep)
    else ""
  }

  lemma PrintUnfolds(table: seq<seq<string>>, sep: string)
    requires Proper(table)
    ensures PrintTable(table, sep) == EscapeCell(table[0][0], sep) + After(table, sep)
    ensures Rest(table) != [] ==> Proper(Rest(table))
  {
    if |table[0]| > 1 {
      RowUnfolds(table, sep, Rest(table));
    } else {
      TableTail(table, sep);
      assert PrintLine(table[0], sep) == EscapeCell(table[0][0], sep);
    }
  }

  lemma RowUnfolds(table: seq<seq<string>>, sep: string, rest: seq<seq<string>>)
    requires Proper(table) && |table[0]| > 1 && rest == [table[0][1..]] + table[1..]
    ensures Proper(rest)
    ensures PrintTable(table, sep) == EscapeCell(table[0][0], sep) + (sep + PrintTable(rest, sep))
  {
    var cell, line := EscapeCell(table[0][0], sep), PrintLine(table[0][1..], sep);
    var more := if |table| > 1 then ['\n'] + PrintTable(table[1..], sep) else "";
    TableTail(table, sep);
    LineTail(table[0], sep);
    TableTail(rest, sep);
    assert rest[0] == table[0][1..] && rest[1..] == table[1..] && |rest| == |table|;
    Associates(cell + sep, line, more);
    Associates(cell, sep, line + more);
  }

  lemma TableTail(table: seq<seq<string>>, sep: string)
    requires table != []
    ensures PrintTable(table, sep) == PrintLine(table[0], sep) +
      if |table| > 1 then ['\n'] + PrintTable(table[1..], sep) else ""
  {
    if |table| > 1 {
      LinesTail(table, sep);
    } else {
      assert seq(1, i requires 0 <= i < 1 => PrintLine(table[i], sep)) == [PrintLine(table[0], sep)];
    }
  }

  // ---- the byte order mark -------------------------------------------------------------------------

  /** What a program that opens the file makes of a mark at its beginning. */
  function WithoutMark(text: string): string { if text != "" && text[0] == BOM then text[1..] else text }

  /** The printed table itself begins with the mark: in its first cell, or as the separator behind an empty one. */
  predicate BeginsWithMark(table: seq<seq<string>>, sep: char)
    requires Proper(table)
  {
    var cell := table[0][0];
    if cell == "" then sep == BOM && |table[0]| > 1 else cell[0] == BOM && !NeedsQuotes(cell, [sep])
  }

  lemma BeginsWithMarkIff(table: seq<seq<string>>, sep: char, text: string)
    requires Proper(table) && text == PrintTable(table, [sep])
    ensures BeginsWithMark(table, sep) <==> text != "" && text[0] == BOM
  {
    PrintUnfolds(table, [sep]);
    ContainsChar("", sep);
  }

  /** The table that is read when a leading mark of its own is taken off. */
  function Stripped(table: seq<seq<string>>): seq<seq<string>>
    requires Proper(table) && (table[0][0] == "" ==> |table[0]| > 1)
  {
    if table[0][0] == "" then Rest(table) else [[table[0][0][1..]] + table[0][1..]] + table[1..]
  }

  /** What follows the first cell does not depend on it. */
  lemma AfterAgrees(s: seq<seq<string>>, t: seq<seq<string>>, sep: string)
    requires Proper(s) && Proper(t) && s[0][1..] == t[0][1..] && s[1..] == t[1..]
    ensures After(s, sep) == After(t, sep)
  {
    assert |s[0]| == |s[0][1..]| + 1 && |t[0]| == |t[0][1..]| + 1;
    assert |s| == |s[1..]| + 1 && |t| == |t[1..]| + 1;
  }

  lemma TailNeedsNoQuotes(cell: string, sep: char)
    requires cell != "" && !NeedsQuotes(cell, [sep])
    ensures !NeedsQuotes(cell[1..], [sep])
  {
    ContainsChar(cell, sep);
    ContainsChar(cell[1..], sep);
    assert forall c :: c in cell[1..] ==> c in cell;
  }

  lemma ShorterCellPrints(table: seq<seq<string>>, sep: char, r: seq<seq<string>>)
    requires Proper(table) && table[0][0] != "" && !NeedsQuotes(table[0][0], [sep]) && r == Stripped(table)
    ensures Proper(r) && r != table && PrintTable(table, [sep]) == [table[0][0][0]] + PrintTable(r, [sep])
  {
    var cell, rest := table[0][0], table[0][0][1..];
    var row := [rest] + table[0][1..];
    TailNeedsNoQuotes(cell, sep);
    assert r[0] == row && r[1..] == table[1..];
    assert row[0] == rest && row[1..] == table[0][1..] && |rest| < |cell|;
    AfterAgrees(r, table, [sep]);
    PrintUnfolds(r, [sep]);
    PrintUnfolds(table, [sep]);
    assert cell == [cell[0]] + rest;
    Associates([cell[0]], rest, After(table, [sep]));
  }

  lemma StrippedPrints(table: seq<seq<string>>, sep: char, text: string)
    requires Proper(table) && BeginsWithMark(table, sep) && text == PrintTable(table, [sep])
    ensures Proper(Stripped(table)) && Stripped(table) != table
    ensures WithoutMark(text) == PrintTable(Stripped(table), [sep])
  {
    var r := Stripped(table);
    BeginsWithMarkIff(table, sep, text);
    if table[0][0] == "" {
      PrintUnfolds(table, [sep]);
      ContainsChar("", sep);
      assert text == [sep] + PrintTable(r, [sep]);
      assert |r[0]| < |table[0]|;
    } else {
      ShorterCellPrints(table, sep, r);
    }
  }

  /** An export opened by a program that takes off a leading mark: header and cells come back exactly if the export was
      made with a mark or does not itself begin with one. */
  lemma ExportRoundTrip<Row>(cols: seq<Column>, rows: seq<Row>, text: (Row, Column) -> string, headers: bool,
                             sep: char, bom: bool)
    requires GoodSeparator(sep) && cols != [] && (headers || rows != [])
    ensures var table := Table(cols, rows, text, headers);
      && Proper(table)
      && (Read(WithoutMark(Marked(bom, PrintTable(table, [sep]))), sep) == Some(table) <==>
          bom || !BeginsWithMark(table, sep))
  {
    var table := Table(cols, rows, text, headers);
    var printed := PrintTable(table, [sep]);
    RoundTrip(table, sep);
    BeginsWithMarkIff(table, sep, printed);
    if bom {
      assert Marked(bom, printed)[1..] == printed;
    } else if BeginsWithMark(table, sep) {
      StrippedPrints(table, sep, printed);
      RoundTrip(Stripped(table), sep);
    }
  }

  // ---- which separators lose nothing ---------------------------------------------------------------

  /** Printing is injective on tables with at least one line and one column. */
  ghost predicate PrintsFaithfully(sep: string) {
    forall s, t :: Proper(s) && Proper(t) && PrintTable(s, sep) == PrintTable(t, sep) ==> s == t
  }

  /** No reader at all can recover the cells when the separator is a quote or a line feed; with any other one-character
      separator the reader above does. */
  lemma FaithfulIffGoodSeparator(sep: char)
    ensures PrintsFaithfully([sep]) <==> GoodSeparator(sep)
  {
    if GoodSeparator(sep) {
      forall s, t | Proper(s) && Proper(t) && PrintTable(s, [sep]) == PrintTable(t, [sep]) ensures s == t {
        RoundTrip(s, sep);
        RoundTrip(t, sep);
      }
    } else if sep == '\n' {
      LineFeedLosesTheRows();
    } else {
      QuoteLosesTheCells();
    }
  }

  lemma LineFeedLosesTheRows()
    ensures !PrintsFaithfully("\n")
  {
    var s, t := [["", ""]], [[""], [""]];
    PrintsTwoCells("", "", "\n");
    PrintsTwoRows([""], [""], "\n");
    PrintsOneCell("", "\n");
    assert PrintTable(s, "\n") == PrintTable(t, "\n");
    assert Proper(s) && Proper(t) && |s| != |t|;
  }

  lemma QuoteLosesTheCells()
    ensures !PrintsFaithfully("\"")
  {
    var s, t := [["", ""], ["", ""]], [["\n"]];
    PrintsTwoCells("", "", "\"");
    PrintsTwoRows(["", ""], ["", ""], "\"");
    PrintsOneCell("\n", "\"");
    assert DoubleQuotes("\n") == "\n";
    assert PrintTable(s, "\"") == PrintTable(t, "\"");
    assert Proper(s) && Proper(t) && |s| != |t|;
  }

  lemma PrintsOneCell(x: string, sep: string)
    ensures PrintTable([[x]], sep) == EscapeCell(x, sep) && PrintLine([x], sep) == EscapeCell(x, sep)
  {
    assert seq(1, i requires 0 <= i < 1 => PrintLine([[x]][i], sep)) == [PrintLine([x], sep)];
  }

  lemma PrintsTwoCells(x: string, y: string, sep: string)
    ensures PrintLine([x, y], sep) == EscapeCell(x, sep) + sep + EscapeCell(y, sep)
    ensures PrintTable([[x, y]], sep) == PrintLine([x, y], sep)
  {
    assert EscapeRow([x, y], sep) == [EscapeCell(x, sep), EscapeCell(y, sep)];
    assert EscapeRow([x, y], sep)[1..] == [EscapeCell(y, sep)];
    assert Join([EscapeCell(y, sep)], sep) == EscapeCell(y, sep);
    assert seq(1, i requires 0 <= i < 1 => PrintLine([[x, y]][i], sep)) == [PrintLine([x, y], sep)];
  }

  lemma PrintsTwoRows(x: seq<string>, y: seq<string>, sep: string)
    ensures PrintTable([x, y], sep) == PrintLine(x, sep) + ['\n'] + PrintLine(y, sep)
  {
    LinesTail([x, y], sep);
    assert [x, y][1..] == [y];
  }
}
