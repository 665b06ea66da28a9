/** The CSV tokenizer (packages/import/src/csv-rows.ts) and the printer it undoes (RFC 4180, section 2). */
module Csv {
  import opened Common

  datatype Scan = Scan(rows: seq<seq<string>>, row: seq<string>, field: string, inQuotes: bool)
  datatype CsvRows = CsvRows(rows: seq<seq<string>>, truncated: bool)

  const Start := Scan([], [], "", false)

  function EndField(s: Scan): Scan { s.(row := s.row + [s.field], field := "") }
  function EndRow(s: Scan): Scan { s.(rows := s.rows + [s.row + [s.field]], row := [], field := "") }

  predicate QuoteFollows(text: string) { |text| > 1 && text[1] == '"' }

  /** How many characters the next turn reads: two for an escaped quote or a CRLF. */
  function Taken(text: string, s: Scan): (n: nat)
    requires text != ""
    ensures 1 <= n <= |text|
  {
    if s.inQuotes && text[0] == '"' && QuoteFollows(text) then 2
    else if !s.inQuotes && text[0] == '\r' && |text| > 1 && text[1] == '\n' then 2
    else 1
  }

  function Turn(text: string, s: Scan): Scan
    requires text != ""
  {
    var c := text[0];
    if s.inQuotes then
      if c != '"' then s.(field := s.field + [c])
      else if QuoteFollows(text) then s.(field := s.field + "\"")
      else s.(inQuotes := false)
    else if c == '"' then s.(inQuotes := true)
    else if c == ',' then EndField(s)
    else if c == '\r' || c == '\n' then EndRow(s)
    else s.(field := s.field + [c])
  }

  datatype Scanned = Scanned(state: Scan, truncated: bool)

  predicate Full(s: Scan, maxRows: Option<nat>) { maxRows.Some? && |s.rows| >= maxRows.value }

  /** The rest of the scan, from the remaining text. */
  function Run(text: string, s: Scan, maxRows: Option<nat>): Scanned
    decreases |text|
  {
    if text == "" then Scanned(s, false)
    else if Full(s, maxRows) then Scanned(s, true)
    else Run(text[Taken(text, s)..], Turn(text, s), maxRows)
  }

  /** The rows with an unfinished last row added. */
  function WithPending(s: Scan): seq<seq<string>> {
    if s.field != "" || s.row != [] then EndRow(s).rows else s.rows
  }

  function DropEmptyLast(rows: seq<seq<string>>): seq<seq<string>> {
    if rows != [] && rows[|rows| - 1] == [""] then rows[..|rows| - 1] else rows
  }

  function Parse(text: string, maxRows: Option<nat>): CsvRows {
    var r := Run(text, Start, maxRows);
    CsvRows(if r.truncated then r.state.rows else DropEmptyLast(WithPending(r.state)), r.truncated)
  }

  /** What the rest of the text starts with, and what is left of it further on. */
  lemma StepHead(text: string, i: nat)
    requires i < |text|
    ensures text[i..][0] == text[i] && (i + 1 < |text| ==> text[i..][1] == text[i + 1])
    ensures forall k: nat :: i + k <= |text| ==> text[i..][k..] == text[i + k..]
  {
    forall k: nat | i + k <= |text|
      ensures text[i..][k..] == text[i + k..]
    {
    }
  }

  method ParseCsvRows(text: string, maxRows: Option<nat>) returns (result: CsvRows)
    ensures result == Parse(text, maxRows)
  {
    var rows: seq<seq<string>> := [];
    var row: seq<string> := [];
    var field := "";
    var inQuotes := false;
    var i := 0;
    var n := |text|;
    var truncated := false;
    while i < n && !truncated
      invariant 0 <= i <= n
      invariant truncated ==> Run(text, Start, maxRows) == Scanned(Scan(rows, row, field, inQuotes), true)
      invariant !truncated ==> Run(text[i..], Scan(rows, row, field, inQuotes), maxRows) == Run(text, Start, maxRows)
      decreases n - i, !truncated
    {
      ghost var before := Scan(rows, row, field, inQuotes);
      ghost var rest := text[i..];
      if maxRows.Some? && |rows| >= maxRows.value {
        truncated := true;
      } else {
        ghost var from, taken := i, Taken(rest, before);
        var c := text[i];
        StepHead(text, i);
        if inQuotes {
          if c == '"' {
            if i + 1 < n && text[i + 1] == '"' {
              field := field + "\"";
              i := i + 2;
            } else {
              inQuotes := false;
              i := i + 1;
            }
          } else {
            field := field + [c];
            i := i + 1;
          }
        } else if c == '"' {
          inQuotes := true;
          i := i + 1;
        } else if c == ',' {
          row, field := row + [field], "";
          i := i + 1;
        } else if c == '\r' {
          if i + 1 < n && text[i + 1] == '\n' { i := i + 1; }
          rows, row, field := rows + [row + [field]], [], "";
          i := i + 1;
        } else if c == '\n' {
          rows, row, field := rows + [row + [field]], [], "";
          i := i + 1;
        } else {
          field := field + [c];
          i := i + 1;
        }
        assert taken == i - from && Turn(rest, before) == Scan(rows, row, field, inQuotes);
        assert Run(rest, before, maxRows) == Run(rest[taken..], Turn(rest, before), maxRows);
      }
    }
    if !truncated && (field != "" || row != []) {
      rows := rows + [row + [field]];
    }
    if !truncated && |rows| > 0 && rows[|rows| - 1] == [""] {
      rows := rows[..|rows| - 1];
    }
    result := CsvRows(rows, truncated);
  }

  // ---------------------------------------------------------------- the row cap

  /** Within the cap, and with nothing begun once the cap is reached. */
  ghost predicate UnderCap(s: Scan, cap: nat) {
    |s.rows| <= cap && (|s.rows| == cap ==> s.row == [] && s.field == "" && !s.inQuotes)
  }

  lemma {:induction false} RowsOnlyGrow(text: string, s: Scan)
    ensures s.rows <= Run(text, s, None).state.rows && !Run(text, s, None).truncated
    decreases |text|
  {
    if text != "" {
      RowsOnlyGrow(text[Taken(text, s)..], Turn(text, s));
      assert s.rows <= Turn(text, s).rows;
    }
  }

  lemma {:induction false} CappedRun(text: string, s: Scan, cap: nat)
    requires UnderCap(s, cap)
    ensures UnderCap(Run(text, s, Some(cap)).state, cap)
    ensures Run(text, s, Some(cap)).truncated ==>
      |Run(text, s, Some(cap)).state.rows| == cap && Run(text, s, Some(cap)).state.rows <= Run(text, s, None).state.rows
    ensures !Run(text, s, Some(cap)).truncated ==> Run(text, s, Some(cap)) == Run(text, s, None)
    decreases |text|
  {
    if text != "" {
      if Full(s, Some(cap)) {
        RowsOnlyGrow(text, s);
      } else {
        CappedRun(text[Taken(text, s)..], Turn(text, s), cap);
      }
    }
  }

  /**
   * With a cap: never more rows than allowed; cut short, a prefix of the uncapped rows; otherwise, the uncapped
   * result.
   */
  lemma CapIsPrefix(text: string, cap: nat)
    ensures |Parse(text, Some(cap)).rows| <= cap
    ensures Parse(text, Some(cap)).truncated ==>
      |Parse(text, Some(cap)).rows| == cap && Parse(text, Some(cap)).rows <= WithPending(Run(text, Start, None).state)
    ensures !Parse(text, Some(cap)).truncated ==> Parse(text, Some(cap)) == Parse(text, None)
  {
    CappedRun(text, Start, cap);
    RowsOnlyGrow(text, Start);
  }

  // ---------------------------------------------------------------- printing

  /** A field, printed quoted when the writer chooses to or the text demands it. */
  datatype Cell = Cell(text: string, quoted: bool)
  datatype Eol = Crlf | Lf | Cr
  /** A row has at least one field. */
  datatype Cells = Last(cell: Cell) | Then(cell: Cell, more: Cells)
  /** Only the last line may lack its end. */
  datatype Lines = NoMore | Open(cells: Cells) | Line(cells: Cells, eol: Eol, rest: Lines)

  predicate IsSpecial(c: char) { c == '"' || c == ',' || c == '\r' || c == '\n' }

  predicate CellOk(c: Cell) {
    c.quoted || forall i :: 0 <= i < |c.text| ==> !IsSpecial(c.text[i])
  }

  predicate CellsOk(cells: Cells) { CellOk(cells.cell) && (cells.Then? ==> CellsOk(cells.more)) }

  /** A lone carriage return ends a line only where no line feed follows. */
  predicate StartsWithLf(text: string) { text != "" && text[0] == '\n' }

  predicate Printable(lines: Lines) {
    match lines
    case NoMore => true
    case Open(cells) => CellsOk(cells)
    case Line(cells, eol, rest) => CellsOk(cells) && Printable(rest) && (eol.Cr? ==> !StartsWithLf(Print(rest)))
  }

  function Escape(t: string): string {
    if t == "" then "" else (if t[0] == '"' then "\"\"" else [t[0]]) + Escape(t[1..])
  }

  function PrintCell(c: Cell): string { if c.quoted then "\"" + Escape(c.text) + "\"" else c.text }

  function PrintCells(cells: Cells): string {
    match cells
    case Last(c) => PrintCell(c)
    case Then(c, more) => PrintCell(c) + "," + PrintCells(more)
  }

  function PrintEol(eol: Eol): string {
    match eol case Crlf => "\r\n" case Lf => "\n" case Cr => "\r"
  }

  function Print(lines: Lines): string {
    match lines
    case NoMore => ""
    case Open(cells) => PrintCells(cells)
    case Line(cells, eol, rest) => PrintCells(cells) + PrintEol(eol) + Print(rest)
  }

  function TextsOf(cells: Cells): (row: seq<string>)
    ensures row != []
  {
    [cells.cell.text] + if cells.Then? then TextsOf(cells.more) else []
  }

  function Table(lines: Lines): seq<seq<string>> {
    match lines
    case NoMore => []
    case Open(cells) => [TextsOf(cells)]
    case Line(cells, _, rest) => [TextsOf(cells)] + Table(rest)
  }

  // ---------------------------------------------------------------- round trip

  /** The next character, if any, ends the field. */
  predicate FieldEnds(rest: string) { rest == "" || rest[0] == ',' || rest[0] == '\r' || rest[0] == '\n' }

  lemma {:induction false} ScanPlain(t: string, rest: string, s: Scan, max: Option<nat>)
    requires !Full(s, max)
    requires !s.inQuotes && forall i :: 0 <= i < |t| ==> !IsSpecial(t[i])
    ensures Run(t + rest, s, max) == Run(rest, s.(field := s.field + t), max)
    decreases |t|
  {
    if t == "" {
      assert t + rest == rest && s.field + t == s.field;
    } else {
      var u := t + rest;
      assert u[0] == t[0] && u[1..] == t[1..] + rest;
      ScanPlain(t[1..], rest, s.(field := s.field + [t[0]]), max);
      assert s.field + [t[0]] + t[1..] == s.field + t;
    }
  }

  lemma {:induction false} ScanEscaped(t: string, rest: string, s: Scan, max: Option<nat>)
    requires !Full(s, max)
    requires s.inQuotes && (rest == "" || rest[0] != '"')
    ensures Run(Escape(t) + "\"" + rest, s, max) == Run(rest, s.(field := s.field + t, inQuotes := false), max)
    decreases |t|
  {
    var u := Escape(t) + "\"" + rest;
    if t == "" {
      assert u == "\"" + rest && u[1..] == rest && s.field + t == s.field;
    } else {
      var v := Escape(t[1..]) + "\"" + rest;
      if t[0] == '"' {
        assert u == "\"\"" + v && u[2..] == v;
      } else {
        assert u == [t[0]] + v && u[1..] == v;
      }
      ScanEscaped(t[1..], rest, s.(field := s.field + [t[0]]), max);
      assert s.field + [t[0]] + t[1..] == s.field + t;
    }
  }

  lemma ScanCell(c: Cell, rest: string, s: Scan, max: Option<nat>)
    requires !Full(s, max)
    requires CellOk(c) && !s.inQuotes && s.field == "" && FieldEnds(rest)
    ensures Run(PrintCell(c) + rest, s, max) == Run(rest, s.(field := c.text), max)
  {
    if c.quoted {
      var u := PrintCell(c) + rest;
      assert u == "\"" + (Escape(c.text) + "\"" + rest) && u[1..] == Escape(c.text) + "\"" + rest;
      ScanEscaped(c.text, rest, s.(inQuotes := true), max);
    } else {
      ScanPlain(c.text, rest, s, max);
    }
    assert "" + c.text == c.text;
  }

  lemma RunComma(rest: string, s: Scan, max: Option<nat>)
    requires !Full(s, max)
    requires !s.inQuotes
    ensures Run("," + rest, s, max) == Run(rest, EndField(s), max)
  {
    var u := "," + rest;
    assert u[0] == ',' && u[1..] == rest;
  }

  lemma RunEol(eol: Eol, rest: string, s: Scan, max: Option<nat>)
    requires !Full(s, max)
    requires !s.inQuotes && (eol.Cr? ==> !StartsWithLf(rest))
    ensures Run(PrintEol(eol) + rest, s, max) == Run(rest, EndRow(s), max)
  {
    var u := PrintEol(eol) + rest;
    match eol
    case Crlf => assert u[0] == '\r' && u[1] == '\n' && u[2..] == rest;
    case Lf => assert u[0] == '\n' && u[1..] == rest;
    case Cr => assert u[0] == '\r' && u[1..] == rest && (rest != "" ==> u[1] == rest[0]);
  }

  /** The state once a line's cells have been read: all but the last in the row, the last still in the field. */
  function Held(cells: Cells, s: Scan): Scan {
    var s1 := s.(field := cells.cell.text);
    if cells.Last? then s1 else Held(cells.more, EndField(s1))
  }

  lemma {:induction false} HeldIsWholeRow(cells: Cells, s: Scan)
    ensures var h := Held(cells, s);
      h.rows == s.rows && h.inQuotes == s.inQuotes && h.row + [h.field] == s.row + TextsOf(cells)
    decreases cells
  {
    if cells.Then? {
      var text, rest := [cells.cell.text], TextsOf(cells.more);
      HeldIsWholeRow(cells.more, EndField(s.(field := cells.cell.text)));
      assert s.row + text + rest == s.row + (text + rest);
    }
  }

  lemma {:induction false} ScanCells(cells: Cells, rest: string, s: Scan, max: Option<nat>)
    requires !Full(s, max)
    requires CellsOk(cells)
    requires !s.inQuotes && s.field == "" && (rest == "" || rest[0] == '\r' || rest[0] == '\n')
    ensures Run(PrintCells(cells) + rest, s, max) == Run(rest, Held(cells, s), max)
    decreases cells
  {
    match cells
    case Last(c) => ScanCell(c, rest, s, max);
    case Then(c, more) =>
      var after := PrintCells(more) + rest;
      ScanCell(c, "," + after, s, max);
      var s1 := s.(field := c.text);
      RunComma(after, s1, max);
      ScanCells(more, rest, EndField(s1), max);
      Regroup(PrintCell(c), PrintCells(more), rest);
  }

  lemma Regroup(first: string, second: string, rest: string)
    ensures first + "," + second + rest == first + ("," + (second + rest))
  {
  }

  /** An ended line becomes one finished row. */
  lemma ScanEndedLine(cells: Cells, eol: Eol, rest: string, s: Scan, max: Option<nat>)
    requires !Full(s, max)
    requires CellsOk(cells) && !s.inQuotes && s.field == "" && s.row == [] && (eol.Cr? ==> !StartsWithLf(rest))
    ensures Run(PrintCells(cells) + PrintEol(eol) + rest, s, max) ==
      Run(rest, s.(rows := s.rows + [TextsOf(cells)]), max)
  {
    var tail := PrintEol(eol) + rest;
    assert PrintCells(cells) + PrintEol(eol) + rest == PrintCells(cells) + tail;
    ScanCells(cells, tail, s, max);
    HeldIsWholeRow(cells, s);
    RunEol(eol, rest, Held(cells, s), max);
    assert s.row + TextsOf(cells) == TextsOf(cells);
  }

  /** After the scan, the rows are these, short at most of a last row that is one empty field. */
  predicate Finishes(s: Scan, rows: seq<seq<string>>) {
    || WithPending(s) == rows
    || (rows != [] && rows[|rows| - 1] == [""] && WithPending(s) == rows[..|rows| - 1])
  }

  /** An unended last line stays pending, and is taken up unless it is one empty field. */
  lemma ScanOpenLine(cells: Cells, s: Scan)
    requires CellsOk(cells) && !s.inQuotes && s.field == "" && s.row == []
    ensures Finishes(Run(PrintCells(cells), s, None).state, s.rows + [TextsOf(cells)])
  {
    assert PrintCells(cells) + "" == PrintCells(cells);
    ScanCells(cells, "", s, None);
    HeldIsWholeRow(cells, s);
    var h := Held(cells, s);
    assert s.row + TextsOf(cells) == TextsOf(cells);
    var rows := s.rows + [TextsOf(cells)];
    if h.row == [] && h.field == "" {
      assert TextsOf(cells) == [""];
      assert rows[..|rows| - 1] == s.rows;
    }
  }

  lemma TableOneRowOn(cells: Cells, eol: Eol, rest: Lines, rows: seq<seq<string>>)
    ensures rows + [TextsOf(cells)] + Table(rest) == rows + Table(Line(cells, eol, rest))
  {
    assert rows + [TextsOf(cells)] + Table(rest) == rows + ([TextsOf(cells)] + Table(rest));
  }

  /** A finished row and the rest of the table. */
  lemma OneRowOn(cells: Cells, eol: Eol, rest: Lines, s: Scan)
    requires Printable(Line(cells, eol, rest)) && !s.inQuotes && s.field == "" && s.row == []
    ensures var next := s.(rows := s.rows + [TextsOf(cells)]);
      && Run(Print(Line(cells, eol, rest)), s, None) == Run(Print(rest), next, None)
      && next.rows + Table(rest) == s.rows + Table(Line(cells, eol, rest))
  {
    ScanEndedLine(cells, eol, Print(rest), s, None);
    TableOneRowOn(cells, eol, rest, s.rows);
  }

  lemma {:induction false} ScanLines(lines: Lines, s: Scan)
    requires Printable(lines) && !s.inQuotes && s.field == "" && s.row == []
    ensures Finishes(Run(Print(lines), s, None).state, s.rows + Table(lines))
    decreases lines
  {
    match lines
    case NoMore => assert s.rows + [] == s.rows;
    case Open(cells) => ScanOpenLine(cells, s);
    case Line(cells, eol, rest) =>
      OneRowOn(cells, eol, rest, s);
      ScanLines(rest, s.(rows := s.rows + [TextsOf(cells)]));
  }

  lemma CleanedUp(s: Scan, rows: seq<seq<string>>)
    requires Finishes(s, rows)
    ensures DropEmptyLast(WithPending(s)) == rows <==> (rows == [] || rows[|rows| - 1] != [""])
  {
    var got := WithPending(s);
    if rows != [] && rows[|rows| - 1] == [""] {
      assert |DropEmptyLast(got)| < |rows|;
    }
  }

  lemma PrintedFinishes(lines: Lines)
    requires Printable(lines)
    ensures Finishes(Run(Print(lines), Start, None).state, Table(lines))
  {
    ScanLines(lines, Start);
    assert Start.rows + Table(lines) == Table(lines);
  }

  /**
   * Printing any table of non-empty rows and parsing it gives the table back, exactly unless its last row is one
   * empty field.
   */
  lemma RoundTrip(lines: Lines)
    requires Printable(lines)
    ensures Parse(Print(lines), None) == CsvRows(Table(lines), false) <==>
      (Table(lines) == [] || Table(lines)[|Table(lines)| - 1] != [""])
  {
    RowsOnlyGrow(Print(lines), Start);
    PrintedFinishes(lines);
    CleanedUp(Run(Print(lines), Start, None).state, Table(lines));
  }

  // ---------------------------------------------------------------- the row cap on a printed table

  /** What is left after n ended lines. */
  function AfterLines(lines: Lines, n: nat): Lines {
    if n == 0 then lines else if lines.Line? then AfterLines(lines.rest, n - 1) else NoMore
  }

  lemma OpenLineIsNotCut(cells: Cells, s: Scan, cap: nat)
    requires CellsOk(cells) && !s.inQuotes && s.field == "" && |s.rows| < cap
    ensures !Run(PrintCells(cells), s, Some(cap)).truncated
  {
    assert PrintCells(cells) + "" == PrintCells(cells);
    ScanCells(cells, "", s, Some(cap));
  }

  lemma {:induction false} CutIffTextRemains(lines: Lines, s: Scan, cap: nat)
    requires Printable(lines) && !s.inQuotes && s.field == "" && s.row == [] && |s.rows| <= cap
    ensures Run(Print(lines), s, Some(cap)).truncated <==> Print(AfterLines(lines, cap - |s.rows|)) != ""
    decreases lines
  {
    if |s.rows| < cap {
      match lines
      case NoMore =>
      case Open(cells) => OpenLineIsNotCut(cells, s, cap);
      case Line(cells, eol, rest) =>
        ScanEndedLine(cells, eol, Print(rest), s, Some(cap));
        CutIffTextRemains(rest, s.(rows := s.rows + [TextsOf(cells)]), cap);
    }
  }

  lemma FinishedPrefix(s: Scan, rows: seq<seq<string>>, few: seq<seq<string>>)
    requires Finishes(s, rows) && few <= WithPending(s)
    ensures few <= rows
  {
  }

  /** Parsing a printed table with a cap is cut short exactly when text remains after that many lines. */
  lemma TruncatedIff(lines: Lines, cap: nat)
    requires Printable(lines)
    ensures Parse(Print(lines), Some(cap)).truncated <==> Print(AfterLines(lines, cap)) != ""
    ensures var r := Parse(Print(lines), Some(cap)); r.truncated ==> |r.rows| == cap && r.rows <= Table(lines)
  {
    CutIffTextRemains(lines, Start, cap);
    var r := Parse(Print(lines), Some(cap));
    if r.truncated {
      CapIsPrefix(Print(lines), cap);
      PrintedFinishes(lines);
      FinishedPrefix(Run(Print(lines), Start, None).state, Table(lines), r.rows);
    }
  }
}
