/** The CSV reader (src/native_input.cpp) and the printings of section 2 of RFC 4180 it inverts. */
module Csv {
  import opened Wrappers

  type Row = seq<string>

  datatype Error = MalformedQuoting | UnterminatedQuote

  /** The reader's variables; `closed`: the field's quote has ended, `started`: the field has begun. */
  datatype Scan = Scan(rows: seq<Row>, row: Row, field: string, quoted: bool, closed: bool, started: bool)

  function NewField(rows: seq<Row>, row: Row): Scan {
    Scan(rows, row, "", false, false, false)
  }

  /** How many characters end a row: a line feed after a carriage return belongs to it. */
  function EndLength(text: string): (k: nat)
    requires text != ""
    ensures 1 <= k <= |text|
  {
    if text[0] == '\r' && |text| > 1 && text[1] == '\n' then 2 else 1
  }

  predicate Separates(c: char) {
    c == ',' || c == '\n' || c == '\r'
  }

  function Ended(s: Scan): Result<seq<Row>, Error> {
    if s.quoted then Err(UnterminatedQuote)
    else if s.started || s.closed || s.row != [] then Ok(s.rows + [s.row + [s.field]])
    else Ok(s.rows)
  }

  /** What the reader answers from a moment on. */
  function Parse(s: Scan, text: string): Result<seq<Row>, Error>
    decreases |text|
  {
    if text == "" then Ended(s)
    else if s.quoted && text[0] == '"' && |text| > 1 && text[1] == '"' then
      Parse(s.(field := s.field + "\""), text[2..])
    else if s.quoted && text[0] == '"' then Parse(s.(quoted := false, closed := true), text[1..])
    else if s.quoted then Parse(s.(field := s.field + [text[0]]), text[1..])
    else if text[0] == ',' then Parse(NewField(s.rows, s.row + [s.field]), text[1..])
    else if Separates(text[0]) then Parse(NewField(s.rows + [s.row + [s.field]], []), text[EndLength(text)..])
    else if text[0] == '"' && !s.started && !s.closed then Parse(s.(quoted := true, started := true), text[1..])
    else if s.closed || text[0] == '"' then Err(MalformedQuoting)
    else Parse(s.(field := s.field + [text[0]], started := true), text[1..])
  }

  method Csv(text: string) returns (r: Result<seq<Row>, Error>)
    ensures r == Parse(NewField([], []), text)
  {
    var rows: seq<Row>, row: Row, field := [], [], "";
    var quoted, closed, started := false, false, false;
    var i := 0;
    assert text[0..] == text;
    while i < |text|
      invariant 0 <= i <= |text|
      invariant Parse(Scan(rows, row, field, quoted, closed, started), text[i..]) == Parse(NewField([], []), text)
    {
      var c := text[i];
      var rest := text[i..];
      assert rest[1..] == text[i + 1..] && (i + 2 <= |text| ==> rest[2..] == text[i + 2..]);
      if quoted {
        if c == '"' {
          if i + 1 < |text| && text[i + 1] == '"' {
            field := field + "\"";
            i := i + 1;
          } else {
            quoted, closed := false, true;
          }
        } else {
          field := field + [c];
        }
      } else if c == ',' || c == '\n' || c == '\r' {
        row := row + [field];
        field, closed, started := "", false, false;
        if c != ',' {
          rows, row := rows + [row], [];
          if c == '\r' && i + 1 < |text| && text[i + 1] == '\n' {
            i := i + 1;
          }
        }
      } else if c == '"' && !started && !closed {
        quoted, started := true, true;
      } else {
        if closed || c == '"' {
          return Err(MalformedQuoting);
        }
        field, started := field + [c], true;
      }
      i := i + 1;
    }
    if quoted {
      return Err(UnterminatedQuote);
    }
    if started || closed || row != [] {
      return Ok(rows + [row + [field]]);
    }
    return Ok(rows);
  }

  /** A field as printed: quoted with doubled quotes, or bare. */
  datatype Cell = Cell(content: string, quoted: bool)

  datatype LineEnd = Lf | CrLf | Cr

  datatype Line = Line(cells: seq<Cell>, end: LineEnd)

  /** Ended lines, then a last row without a line end, absent when empty. */
  datatype Document = Document(lines: seq<Line>, last: seq<Cell>)

  function Escape(content: string): string {
    if content == "" then "" else
      Escape(content[..|content| - 1]) + if content[|content| - 1] == '"' then "\"\"" else [content[|content| - 1]]
  }

  function CellText(c: Cell): string {
    if c.quoted then "\"" + Escape(c.content) + "\"" else c.content
  }

  /** Cells each followed by a comma. */
  function Prefix(cells: seq<Cell>): string {
    if cells == [] then "" else Prefix(cells[..|cells| - 1]) + CellText(cells[|cells| - 1]) + ","
  }

  function RowText(cells: seq<Cell>): string {
    if cells == [] then "" else Prefix(cells[..|cells| - 1]) + CellText(cells[|cells| - 1])
  }

  function EndText(end: LineEnd): string {
    match end case Lf => "\n" case CrLf => "\r\n" case Cr => "\r"
  }

  function LineText(line: Line): string {
    RowText(line.cells) + EndText(line.end)
  }

  function LinesText(lines: seq<Line>): string {
    if lines == [] then "" else LinesText(lines[..|lines| - 1]) + LineText(lines[|lines| - 1])
  }

  function Text(d: Document): string {
    LinesText(d.lines) + RowText(d.last)
  }

  function Contents(cells: seq<Cell>): (row: Row)
    ensures |row| == |cells|
  {
    seq(|cells|, (k: nat) requires k < |cells| => cells[k].content)
  }

  function LineRows(lines: seq<Line>): (rows: seq<Row>)
    ensures |rows| == |lines|
  {
    seq(|lines|, (k: nat) requires k < |lines| => Contents(lines[k].cells))
  }

  function Rows(d: Document): seq<Row> {
    LineRows(d.lines) + if d.last == [] then [] else [Contents(d.last)]
  }

  /** Without quotes, commas and line ends. */
  predicate Plain(content: string) {
    forall k :: 0 <= k < |content| ==> content[k] != '"' && !Separates(content[k])
  }

  /** Quotes are needed around quotes, commas and line ends, and allowed around anything. */
  predicate CellsOk(cells: seq<Cell>) {
    forall k :: 0 <= k < |cells| ==> cells[k].quoted || Plain(cells[k].content)
  }

  /** A line has a cell, and a lone carriage return is not followed by a line feed. */
  predicate LineOk(line: Line, rest: string) {
    line.cells != [] && CellsOk(line.cells) && (line.end == Cr && rest != "" ==> rest[0] != '\n')
  }

  predicate LinesOk(lines: seq<Line>, rest: string) {
    lines == [] ||
    var line := lines[|lines| - 1];
    LineOk(line, rest) && LinesOk(lines[..|lines| - 1], LineText(line) + rest)
  }

  /** A last row of one bare empty field cannot be told from no row. */
  predicate Printing(d: Document) {
    && LinesOk(d.lines, RowText(d.last))
    && CellsOk(d.last) && d.last != [Cell("", false)]
  }

  predicate FieldOver(rest: string) {
    rest == "" || Separates(rest[0])
  }

  lemma {:induction false} ReadEscaped(s: Scan, content: string, rest: string)
    requires s.quoted
    ensures Parse(s, Escape(content) + rest) == Parse(s.(field := s.field + content), rest)
    decreases |content|
  {
    if content == "" {
      assert Escape(content) + rest == rest && s.field + content == s.field;
    } else {
      var front, c := content[..|content| - 1], content[|content| - 1];
      var shown := if c == '"' then "\"\"" else [c];
      assert Escape(content) + rest == Escape(front) + (shown + rest);
      ReadEscaped(s, front, shown + rest);
      assert (shown + rest)[|shown|..] == rest;
      assert s.field + content == s.field + front + [c];
    }
  }

  lemma {:induction false} ReadBare(s: Scan, content: string, rest: string)
    requires !s.quoted && !s.closed && Plain(content)
    ensures Parse(s, content + rest)
            == Parse(s.(field := s.field + content, started := s.started || content != ""), rest)
    decreases |content|
  {
    if content == "" {
      assert content + rest == rest && s.field + content == s.field;
    } else {
      var next := s.(field := s.field + [content[0]], started := true);
      assert (content + rest)[1..] == content[1..] + rest;
      ReadBare(next, content[1..], rest);
      assert next.field + content[1..] == s.field + content;
    }
  }

  /** The reader after a whole cell. */
  function AfterCell(rows: seq<Row>, row: Row, c: Cell): Scan {
    Scan(rows, row, c.content, false, c.quoted, c.quoted || c.content != "")
  }

  lemma ReadCell(rows: seq<Row>, row: Row, c: Cell, rest: string)
    requires (c.quoted || Plain(c.content)) && FieldOver(rest)
    ensures Parse(NewField(rows, row), CellText(c) + rest) == Parse(AfterCell(rows, row, c), rest)
  {
    var s := NewField(rows, row);
    assert "" + c.content == c.content;
    if c.quoted {
      var open := s.(quoted := true, started := true);
      assert (CellText(c) + rest)[1..] == Escape(c.content) + ("\"" + rest);
      ReadEscaped(open, c.content, "\"" + rest);
      assert ("\"" + rest)[1..] == rest;
    } else {
      ReadBare(s, c.content, rest);
    }
  }

  lemma {:induction false} ReadPrefix(rows: seq<Row>, cells: seq<Cell>, rest: string)
    requires CellsOk(cells)
    ensures Parse(NewField(rows, []), Prefix(cells) + rest) == Parse(NewField(rows, Contents(cells)), rest)
    decreases |cells|
  {
    if cells == [] {
      assert Prefix(cells) + rest == rest;
    } else {
      var front, c := cells[..|cells| - 1], cells[|cells| - 1];
      var after := "," + rest;
      assert Prefix(cells) + rest == Prefix(front) + (CellText(c) + after);
      ReadPrefix(rows, front, CellText(c) + after);
      ReadCell(rows, Contents(front), c, after);
      assert after[1..] == rest && Contents(cells) == Contents(front) + [c.content];
    }
  }

  lemma ReadRow(rows: seq<Row>, cells: seq<Cell>, rest: string)
    requires cells != [] && CellsOk(cells) && FieldOver(rest)
    ensures Parse(NewField(rows, []), RowText(cells) + rest)
            == Parse(AfterCell(rows, Contents(cells[..|cells| - 1]), cells[|cells| - 1]), rest)
  {
    var front, c := cells[..|cells| - 1], cells[|cells| - 1];
    assert RowText(cells) + rest == Prefix(front) + (CellText(c) + rest);
    ReadPrefix(rows, front, CellText(c) + rest);
    ReadCell(rows, Contents(front), c, rest);
  }

  lemma ReadLine(rows: seq<Row>, line: Line, rest: string)
    requires LineOk(line, rest)
    ensures Parse(NewField(rows, []), LineText(line) + rest) == Parse(NewField(rows + [Contents(line.cells)], []), rest)
  {
    var after := EndText(line.end) + rest;
    assert LineText(line) + rest == RowText(line.cells) + after;
    ReadRow(rows, line.cells, after);
    assert after[EndLength(after)..] == rest;
    var front, c := line.cells[..|line.cells| - 1], line.cells[|line.cells| - 1];
    assert Contents(line.cells) == Contents(front) + [c.content];
  }

  lemma AddLine(lines: seq<Line>, line: Line, rest: string)
    ensures LinesText(lines + [line]) == LinesText(lines) + LineText(line)
    ensures LineRows(lines + [line]) == LineRows(lines) + [Contents(line.cells)]
    ensures LinesOk(lines + [line], rest) <==> LineOk(line, rest) && LinesOk(lines, LineText(line) + rest)
  {
    var longer := lines + [line];
    assert longer[..|longer| - 1] == lines && longer[|longer| - 1] == line;
    assert LineRows(longer) == LineRows(lines) + [Contents(line.cells)];
  }

  lemma AddCell(cells: seq<Cell>, c: Cell)
    ensures Prefix(cells + [c]) == Prefix(cells) + CellText(c) + ","
    ensures RowText(cells + [c]) == Prefix(cells) + CellText(c)
    ensures Contents(cells + [c]) == Contents(cells) + [c.content]
    ensures CellsOk(cells + [c]) <==> CellsOk(cells) && (c.quoted || Plain(c.content))
  {
    var longer := cells + [c];
    assert longer[..|longer| - 1] == cells && longer[|longer| - 1] == c;
  }

  lemma Regroup(a: string, b: string, c: string)
    ensures a + b + c == a + (b + c)
  {
  }

  /** After `text` has been read the reader stands before `rest` with these rows. */
  ghost predicate Reads(text: string, rows: seq<Row>, rest: string) {
    Parse(NewField([], []), text) == Parse(NewField(rows, []), rest)
  }

  lemma ReadOneMore(text: string, rows: seq<Row>, line: Line, rest: string)
    requires Reads(text, rows, LineText(line) + rest) && LineOk(line, rest)
    ensures Reads(text, rows + [Contents(line.cells)], rest)
  {
    ReadLine(rows, line, rest);
  }

  lemma {:induction false} ReadLines(lines: seq<Line>, rest: string)
    requires LinesOk(lines, rest)
    ensures Reads(LinesText(lines) + rest, LineRows(lines), rest)
    decreases |lines|
  {
    if lines == [] {
      assert LinesText(lines) + rest == rest;
    } else {
      var front, line := lines[..|lines| - 1], lines[|lines| - 1];
      ReadLines(front, LineText(line) + rest);
      LinesSplit(lines, front, line, rest);
      ReadOneMore(LinesText(lines) + rest, LineRows(front), line, rest);
    }
  }

  lemma LinesSplit(lines: seq<Line>, front: seq<Line>, line: Line, rest: string)
    requires lines != [] && front == lines[..|lines| - 1] && line == lines[|lines| - 1]
    ensures LinesText(lines) + rest == LinesText(front) + (LineText(line) + rest)
    ensures LineRows(lines) == LineRows(front) + [Contents(line.cells)]
  {
    assert lines == front + [line];
    AddLine(front, line, rest);
    Regroup(LinesText(front), LineText(line), rest);
  }

  /** At the end of the text the row under way is kept, unless it is one bare empty field. */
  lemma EndAfterCell(rows: seq<Row>, row: Row, c: Cell)
    requires row != [] || c != Cell("", false)
    ensures Parse(AfterCell(rows, row, c), "") == Ok(rows + [row + [c.content]])
  {
  }

  lemma ReadLast(rows: seq<Row>, cells: seq<Cell>)
    requires cells != [] && CellsOk(cells) && cells != [Cell("", false)]
    ensures Parse(NewField(rows, []), RowText(cells)) == Ok(rows + [Contents(cells)])
  {
    var front, c := cells[..|cells| - 1], cells[|cells| - 1];
    assert cells == front + [c];
    AddCell(front, c);
    ReadRow(rows, cells, "");
    assert RowText(cells) + "" == RowText(cells);
    EndAfterCell(rows, Contents(front), c);
  }

  /** Reading undoes printing, however each field is quoted and each line is ended. */
  lemma ReadingUndoesPrinting(d: Document)
    requires Printing(d)
    ensures Parse(NewField([], []), Text(d)) == Ok(Rows(d))
  {
    var last := RowText(d.last);
    ReadLines(d.lines, last);
    if d.last != [] {
      ReadLast(LineRows(d.lines), d.last);
    } else {
      assert LineRows(d.lines) + [] == LineRows(d.lines);
    }
  }

  function QuotedLine(row: Row): Line {
    Line(seq(|row|, (k: nat) requires k < |row| => Cell(row[k], true)), CrLf)
  }

  /** Every row as a line of quoted fields. */
  function QuotedLines(rows: seq<Row>): (lines: seq<Line>)
    ensures |lines| == |rows|
  {
    if rows == [] then [] else QuotedLines(rows[..|rows| - 1]) + [QuotedLine(rows[|rows| - 1])]
  }

  lemma QuotedLineIsOk(row: Row, rest: string)
    requires row != []
    ensures LineOk(QuotedLine(row), rest)
  {
  }

  lemma {:induction false} QuotedLinesAreOk(rows: seq<Row>, rest: string)
    requires [] !in rows
    ensures LinesOk(QuotedLines(rows), rest)
    decreases |rows|
  {
    if rows != [] {
      var front, row := rows[..|rows| - 1], rows[|rows| - 1];
      var before, line := QuotedLines(front), QuotedLine(row);
      QuotedLineIsOk(row, rest);
      QuotedLinesAreOk(front, LineText(line) + rest);
      AddLine(before, line, rest);
    }
  }

  lemma QuotedLinesKeepRows(rows: seq<Row>, k: nat)
    requires k < |rows|
    ensures QuotedLines(rows)[k] == QuotedLine(rows[k]) && Contents(QuotedLine(rows[k]).cells) == rows[k]
    decreases |rows|
  {
    if k < |rows| - 1 {
      QuotedLinesKeepRows(rows[..|rows| - 1], k);
    }
  }

  /** For every list of nonempty rows, reading its quoted printing gives the rows back. */
  lemma QuotedRowsComeBack(rows: seq<Row>)
    requires [] !in rows
    ensures Parse(NewField([], []), LinesText(QuotedLines(rows))) == Ok(rows)
  {
    forall k | 0 <= k < |rows| ensures LineRows(QuotedLines(rows))[k] == rows[k] {
      QuotedLinesKeepRows(rows, k);
    }
    assert LineRows(QuotedLines(rows)) == rows;
    QuotedLinesAreOk(rows, "");
    ReadLines(QuotedLines(rows), "");
    assert LinesText(QuotedLines(rows)) + "" == LinesText(QuotedLines(rows));
  }

  /** What has been read of the field under way, as text. */
  function Partial(s: Scan): string {
    if s.quoted then "\"" + Escape(s.field) else CellText(Cell(s.field, s.closed))
  }

  /** The field under way is one a printing can have. */
  ghost predicate FieldFits(s: Scan) {
    && (s.quoted ==> s.started && !s.closed)
    && (s.closed ==> s.started)
    && (!s.quoted && !s.closed ==> Plain(s.field) && (s.started <==> s.field != ""))
  }

  /** The reader's variables fit the cells read since the last line end; `tail` is the text since then,
      `text` the part of it still to be read. */
  ghost predicate Fits(s: Scan, cells: seq<Cell>, text: string, tail: string) {
    && FieldFits(s) && s.row == Contents(cells) && CellsOk(cells)
    && tail == Prefix(cells) + Partial(s) + text
  }

  lemma EscapeGrows(content: string, c: char)
    ensures Escape(content + [c]) == Escape(content) + if c == '"' then "\"\"" else [c]
  {
    assert (content + [c])[..|content|] == content;
  }

  lemma GrowStep(s: Scan, cells: seq<Cell>, text: string, tail: string, k: nat)
    requires Fits(s, cells, text, tail) && s.quoted && text != "" && k <= |text|
    requires text[..k] == if text[0] == '"' then "\"\"" else [text[0]]
    ensures Fits(s.(field := s.field + [text[0]]), cells, text[k..], tail)
  {
    EscapeGrows(s.field, text[0]);
    MoveOver(Prefix(cells), Partial(s), text, k);
    Regroup("\"", Escape(s.field), text[..k]);
  }

  lemma CloseStep(s: Scan, cells: seq<Cell>, text: string, tail: string)
    requires Fits(s, cells, text, tail) && s.quoted && text != "" && text[0] == '"'
    ensures Fits(s.(quoted := false, closed := true), cells, text[1..], tail)
  {
    MoveOver(Prefix(cells), Partial(s), text, 1);
    assert text[..1] == "\"";
  }

  lemma MoveOver(before: string, partial: string, text: string, k: nat)
    requires k <= |text|
    ensures before + (partial + text[..k]) + text[k..] == before + partial + text
  {
    assert text == text[..k] + text[k..];
  }

  lemma OpenStep(s: Scan, cells: seq<Cell>, text: string, tail: string, next: Scan)
    requires Fits(s, cells, text, tail) && !s.quoted && text != "" && !s.closed && !Separates(text[0])
    requires text[0] == '"' ==> !s.started
    requires next == if text[0] == '"' then s.(quoted := true, started := true)
                  else s.(field := s.field + [text[0]], started := true)
    ensures Fits(next, cells, text[1..], tail)
  {
    MoveOver(Prefix(cells), Partial(s), text, 1);
    assert Partial(next) == Partial(s) + text[..1];
  }

  lemma CommaStep(s: Scan, cells: seq<Cell>, text: string, tail: string)
    requires Fits(s, cells, text, tail) && !s.quoted && text != "" && text[0] == ','
    ensures Fits(NewField(s.rows, s.row + [s.field]), cells + [Cell(s.field, s.closed)], text[1..], tail)
  {
    var c := Cell(s.field, s.closed);
    AddCell(cells, c);
    MoveOver(Prefix(cells), CellText(c), text, 1);
    Regroup(Prefix(cells), CellText(c), ",");
    assert text[..1] == ",";
    assert Prefix(cells + [c]) + "" == Prefix(cells + [c]);
  }

  lemma LineStep(s: Scan, cells: seq<Cell>, text: string, tail: string) returns (line: Line)
    requires Fits(s, cells, text, tail) && !s.quoted && text != "" && Separates(text[0]) && text[0] != ','
    ensures var rest := text[EndLength(text)..];
            && LineOk(line, rest)
            && LineText(line) + rest == tail && Contents(line.cells) == s.row + [s.field]
  {
    var k, c := EndLength(text), Cell(s.field, s.closed);
    line := Line(cells + [c], if text[0] == '\n' then Lf else if k == 2 then CrLf else Cr);
    AddCell(cells, c);
    assert text[..k] == EndText(line.end);
    MoveOver(Prefix(cells), CellText(c), text, k);
    Regroup(Prefix(cells), CellText(c), text[..k]);
  }

  lemma NewLine(s: Scan, lines: seq<Line>, cells: seq<Cell>, text: string, tail: string) returns (line: Line)
    requires Fits(s, cells, text, tail) && LinesOk(lines, tail) && s.rows == LineRows(lines)
    requires !s.quoted && text != "" && Separates(text[0]) && text[0] != ','
    ensures var next, rest := NewField(s.rows + [s.row + [s.field]], []), text[EndLength(text)..];
            && Fits(next, [], rest, rest) && LinesOk(lines + [line], rest) && next.rows == LineRows(lines + [line])
            && LinesText(lines + [line]) + rest == LinesText(lines) + tail
  {
    line := LineStep(s, cells, text, tail);
    var rest := text[EndLength(text)..];
    AddLine(lines, line, rest);
    Regroup(LinesText(lines), LineText(line), rest);
  }

  lemma LastStep(s: Scan, lines: seq<Line>, cells: seq<Cell>, tail: string) returns (d: Document)
    requires Fits(s, cells, "", tail) && !s.quoted && LinesOk(lines, tail) && s.rows == LineRows(lines)
    ensures Printing(d) && Text(d) == LinesText(lines) + tail && Ended(s) == Ok(Rows(d))
  {
    if s.started || s.closed || s.row != [] {
      var c := Cell(s.field, s.closed);
      AddCell(cells, c);
      assert tail == RowText(cells + [c]);
      assert cells + [c] == [Cell("", false)] ==> cells == [];
      d := Document(lines, cells + [c]);
    } else {
      assert tail == RowText([]);
      d := Document(lines, []);
      assert s.rows + [] == s.rows;
    }
  }

  /** One step inside a field. */
  lemma AdvanceInField(s: Scan, cells: seq<Cell>, text: string, tail: string) returns (next: Scan, k: nat)
    requires Fits(s, cells, text, tail) && text != "" && Parse(s, text).Ok? && (s.quoted || !Separates(text[0]))
    ensures 0 < k <= |text| && Parse(s, text) == Parse(next, text[k..]) && next.rows == s.rows
    ensures Fits(next, cells, text[k..], tail)
  {
    k := 1;
    if s.quoted && text[0] == '"' && (|text| == 1 || text[1] != '"') {
      next := s.(quoted := false, closed := true);
      CloseStep(s, cells, text, tail);
    } else if s.quoted {
      k := if text[0] == '"' then 2 else 1;
      next := s.(field := s.field + [text[0]]);
      GrowStep(s, cells, text, tail, k);
    } else {
      next := if text[0] == '"' then s.(quoted := true, started := true)
        else s.(field := s.field + [text[0]], started := true);
      OpenStep(s, cells, text, tail, next);
    }
  }

  /** One step of the reader, and what it does to the lines and cells read so far. */
  lemma Advance(s: Scan, lines: seq<Line>, cells: seq<Cell>, text: string, tail: string)
    returns (next: Scan, lines': seq<Line>, cells': seq<Cell>, k: nat, tail': string)
    requires Fits(s, cells, text, tail) && LinesOk(lines, tail) && s.rows == LineRows(lines)
    requires text != "" && Parse(s, text).Ok?
    ensures 0 < k <= |text| && Parse(s, text) == Parse(next, text[k..])
    ensures Fits(next, cells', text[k..], tail') && LinesOk(lines', tail') && next.rows == LineRows(lines')
    ensures LinesText(lines') + tail' == LinesText(lines) + tail
  {
    next, lines', cells', k, tail' := s, lines, cells, 1, tail;
    if s.quoted || !Separates(text[0]) {
      next, k := AdvanceInField(s, cells, text, tail);
    } else if text[0] == ',' {
      CommaStep(s, cells, text, tail);
      next, cells' := NewField(s.rows, s.row + [s.field]), cells + [Cell(s.field, s.closed)];
    } else {
      var line := NewLine(s, lines, cells, text, tail);
      k := EndLength(text);
      next, lines', cells', tail' := NewField(s.rows + [s.row + [s.field]], []), lines + [line], [], text[k..];
    }
  }

  /** Whatever the reader accepts is a printing of the rows it returns. */
  lemma {:induction false} AcceptedIsPrinted(s: Scan, lines: seq<Line>, cells: seq<Cell>, text: string, tail: string)
    returns (d: Document)
    requires Fits(s, cells, text, tail) && LinesOk(lines, tail) && s.rows == LineRows(lines) && Parse(s, text).Ok?
    ensures Printing(d) && Text(d) == LinesText(lines) + tail && Parse(s, text) == Ok(Rows(d))
    decreases |text|
  {
    if text == "" {
      d := LastStep(s, lines, cells, tail);
    } else {
      var next, lines', cells', k, tail' := Advance(s, lines, cells, text, tail);
      d := AcceptedIsPrinted(next, lines', cells', text[k..], tail');
    }
  }

  /** The reader accepts exactly the printings, and returns exactly what was printed. */
  lemma AcceptsExactlyPrintings(text: string, rows: seq<Row>)
    ensures Parse(NewField([], []), text) == Ok(rows) <==> exists d :: Printing(d) && Text(d) == text && Rows(d) == rows
  {
    if Parse(NewField([], []), text) == Ok(rows) {
      var d := AcceptedIsPrinted(NewField([], []), [], [], text, text);
      assert LinesText([]) + text == text;
    }
    forall d | Printing(d) && Text(d) == text && Rows(d) == rows ensures Parse(NewField([], []), text) == Ok(rows) {
      ReadingUndoesPrinting(d);
    }
  }

  // ---- the reader's answers, character by character ----

  ghost predicate QuoteFree(s: string) {
    forall k :: 0 <= k < |s| ==> s[k] != '"'
  }

  lemma PlainMeans(s: string)
    ensures Plain(s) <==> forall k :: 0 <= k < |s| ==> s[k] != '"' && s[k] != ',' && s[k] != '\r' && s[k] != '\n'
  {
  }

  /** Commas separate fields; a line feed, with or without a carriage return before it, or the end of the text
      ends the row. */
  lemma PlainRow(first: string, second: string)
    requires Plain(first) && Plain(second)
    ensures Parse(NewField([], []), first + "," + second + "\n") == Ok([[first, second]])
    ensures Parse(NewField([], []), first + "," + second + "\r\n") == Ok([[first, second]])
    ensures Parse(NewField([], []), first + "," + second) == Ok([[first, second]])
  {
    TwoCells(first, second, Lf);
    TwoCells(first, second, CrLf);
    TwoCellsLast(first, second);
  }

  lemma CellsAsText(first: string, second: string)
    ensures RowText([Cell(first, false), Cell(second, false)]) == first + "," + second
    ensures Contents([Cell(first, false), Cell(second, false)]) == [first, second]
  {
    var one := [Cell(first, false)];
    AddCell([], Cell(first, false));
    AddCell(one, Cell(second, false));
    assert [] + [Cell(first, false)] == one;
    assert one + [Cell(second, false)] == [Cell(first, false), Cell(second, false)];
    assert "" + first + "," + second == first + "," + second;
  }

  lemma NothingMore(rows: seq<Row>)
    ensures Parse(NewField(rows, []), "") == Ok(rows)
  {
  }

  lemma TwoCells(first: string, second: string, end: LineEnd)
    requires Plain(first) && Plain(second)
    ensures Parse(NewField([], []), first + "," + second + EndText(end)) == Ok([[first, second]])
  {
    var cells := [Cell(first, false), Cell(second, false)];
    CellsAsText(first, second);
    ReadLine([], Line(cells, end), "");
    assert LineText(Line(cells, end)) + "" == first + "," + second + EndText(end);
    assert [] + [Contents(cells)] == [[first, second]];
    NothingMore([[first, second]]);
  }

  lemma TwoCellsLast(first: string, second: string)
    requires Plain(first) && Plain(second)
    ensures Parse(NewField([], []), first + "," + second) == Ok([[first, second]])
  {
    var cells := [Cell(first, false), Cell(second, false)];
    CellsAsText(first, second);
    ReadLast([], cells);
    assert [] + [Contents(cells)] == [[first, second]];
  }

  lemma {:induction false} ReadQuoteFree(s: Scan, content: string, rest: string)
    requires s.quoted && QuoteFree(content)
    ensures Parse(s, content + rest) == Parse(s.(field := s.field + content), rest)
    decreases |content|
  {
    if content == "" {
      assert content + rest == rest && s.field + content == s.field;
    } else {
      var next := s.(field := s.field + [content[0]]);
      assert (content + rest)[1..] == content[1..] + rest;
      ReadQuoteFree(next, content[1..], rest);
      assert next.field + content[1..] == s.field + content;
    }
  }

  lemma OpenQuote(text: string)
    ensures Parse(NewField([], []), "\"" + text) == Parse(Scan([], [], "", true, false, true), text)
  {
    assert ("\"" + text)[1..] == text;
  }

  lemma CloseQuote(field: string, rest: string)
    requires rest == "" || rest[0] != '"'
    ensures Parse(Scan([], [], field, true, false, true), "\"" + rest)
         == Parse(Scan([], [], field, false, true, true), rest)
  {
    assert ("\"" + rest)[1..] == rest;
  }

  /** Inside quotes commas and line ends are kept, and two quotes are one. */
  lemma QuotedField(a: string, b: string)
    requires QuoteFree(a) && QuoteFree(b)
    ensures Parse(NewField([], []), "\"" + (a + ("\"\"" + (b + "\"\n")))) == Ok([[a + "\"" + b]])
  {
    var tail := b + "\"\n";
    var s := Scan([], [], "", true, false, true);
    OpenQuote(a + ("\"\"" + tail));
    ReadQuoteFree(s, a, "\"\"" + tail);
    var t := s.(field := "" + a);
    assert ("\"\"" + tail)[2..] == tail;
    assert Parse(t, "\"\"" + tail) == Parse(t.(field := t.field + "\""), tail);
    ReadQuoteFree(t.(field := t.field + "\""), b, "\"\n");
    var whole := a + "\"" + b;
    assert t.field + "\"" + b == whole;
    CloseQuote(whole, "\n");
    assert "\"" + "\n" == "\"\n";
    EndOfQuoted(whole);
  }

  lemma EndOfQuoted(field: string)
    ensures Parse(Scan([], [], field, false, true, true), "\n") == Ok([[field]])
  {
    assert "\n"[1..] == "";
    var row: Row, rows: seq<Row> := [], [];
    assert row + [field] == [field] && rows + [[field]] == [[field]];
    NothingMore([[field]]);
  }

  /** A quote inside a bare field or anything but a separator after a closing quote is malformed; a quote
      that is never closed is unterminated. */
  lemma QuotesAreChecked(a: string, rest: string)
    requires QuoteFree(a)
    ensures a != "" && Plain(a) ==> Parse(NewField([], []), a + ("\"" + rest)) == Err(MalformedQuoting)
    ensures rest != "" && rest[0] != '"' && !Separates(rest[0]) ==>
              Parse(NewField([], []), "\"" + (a + ("\"" + rest))) == Err(MalformedQuoting)
    ensures Parse(NewField([], []), "\"" + a) == Err(UnterminatedQuote)
  {
    if a != "" && Plain(a) {
      ReadBare(NewField([], []), a, "\"" + rest);
    }
    OpenQuote(a + ("\"" + rest));
    ReadQuoteFree(Scan([], [], "", true, false, true), a, "\"" + rest);
    if rest != "" && rest[0] != '"' && !Separates(rest[0]) {
      CloseQuote("" + a, rest);
    }
    OpenQuote(a);
    assert a + "" == a;
    ReadQuoteFree(Scan([], [], "", true, false, true), a, "");
  }
}
