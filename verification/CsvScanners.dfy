// Two CSV scan loops: src/recommendation/legacy-fediverse-follow-packs.ts, where a quote always opens or closes, and
// src/recommendation/mastodon-domain-block-lists.ts, where it opens only at the start of a field.
module CsvScanners {
  import opened Options

  datatype Kind = Toggling | AtFieldStart

  type Row = seq<string>

  /** A finished row. */
  datatype Record = Record(fields: Row)

  /** The variables of both loops. */
  datatype Scan = Scan(rows: seq<Record>, row: Row, field: string, quoted: bool)

  const START := Scan([], [], "", false)

  predicate Blank(row: Row) {
    forall i :: 0 <= i < |row| ==> row[i] == ""
  }

  function EndField(s: Scan): Scan {
    s.(row := s.row + [s.field], field := "")
  }

  /** A row without any text is dropped. */
  function EndRow(s: Scan): Scan {
    var row := s.row + [s.field];
    Scan(if Blank(row) then s.rows else s.rows + [Record(row)], [], "", s.quoted)
  }

  function Take(s: Scan, c: char): Scan {
    s.(field := s.field + [c])
  }

  predicate LineEnd(c: char) {
    c == '\n' || c == '\r'
  }

  function LineEndLength(text: string): nat
    requires text != ""
  {
    if text[0] == '\r' && |text| > 1 && text[1] == '\n' then 2 else 1
  }

  /** One turn of the loop, and how many characters it takes. */
  function Turn(kind: Kind, s: Scan, text: string): (r: (Scan, nat))
    requires text != ""
    ensures 1 <= r.1 <= |text|
  {
    var c := text[0];
    match kind
    case Toggling =>
      if c == '"' then
        if s.quoted && |text| > 1 && text[1] == '"' then (Take(s, '"'), 2) else (s.(quoted := !s.quoted), 1)
      else if c == ',' && !s.quoted then (EndField(s), 1)
      else if LineEnd(c) && !s.quoted then (EndRow(s), LineEndLength(text))
      else (Take(s, c), 1)
    case AtFieldStart =>
      if s.quoted then
        if c == '"' then
          if |text| > 1 && text[1] == '"' then (Take(s, '"'), 2) else (s.(quoted := false), 1)
        else (Take(s, c), 1)
      else if c == '"' && s.field == "" then (s.(quoted := true), 1)
      else if c == ',' then (EndField(s), 1)
      else if LineEnd(c) then (EndRow(s), LineEndLength(text))
      else (Take(s, c), 1)
  }

  function ScanAll(kind: Kind, s: Scan, text: string): Scan
    decreases |text|
  {
    if text == "" then s
    else
      var (next, n) := Turn(kind, s, text);
      ScanAll(kind, next, text[n..])
  }

  /** The rows of a text, unless a quote stays open. */
  function Rows(kind: Kind, text: string): Option<seq<Record>> {
    var last := ScanAll(kind, START, text);
    if last.quoted then None else Some(EndRow(last).rows)
  }

  // ---------------------------------------------------------------- the two loops

  const MAX_CSV_LENGTH := 2_000_000
  const MAX_MEMBERS := 500
  const MAX_ROWS := 20_000

  predicate Control(c: char) {
    c as int <= 0x1f || 0x7f <= c as int <= 0x9f
  }

  /** A control character other than a tab or a line end. */
  predicate Unsafe(c: char) {
    Control(c) && c != '\t' && !LineEnd(c)
  }

  predicate UnsafeText(csv: string) {
    exists i :: 0 <= i < |csv| && Unsafe(csv[i])
  }

  method HasUnsafeCharacter(csv: string) returns (found: bool)
    ensures found <==> UnsafeText(csv)
    ensures found <==> exists c :: c in csv && (c as int <= 0x1f || 0x7f <= c as int <= 0x9f) && c !in ['\t', '\n', '\r']
  {
    for i := 0 to |csv|
      invariant forall k :: 0 <= k < i ==> !Unsafe(csv[k])
    {
      if Unsafe(csv[i]) {
        assert csv[i] in csv;
        return true;
      }
    }
    return false;
  }

  /** The rows of a follow pack, headers included. */
  method ParseFollowPackRows(csv: string) returns (r: Option<seq<Record>>)
    ensures r ==
      if |csv| > MAX_CSV_LENGTH || UnsafeText(csv) then None
      else match Rows(Toggling, csv)
        case None => None
        case Some(rows) => if 2 <= |rows| <= MAX_MEMBERS + 1 then Some(rows) else None
  {
    if |csv| > MAX_CSV_LENGTH {
      return None;
    }
    var found := HasUnsafeCharacter(csv);
    if found {
      return None;
    }
    var rows: seq<Record> := [];
    var row: Row := [];
    var field, quoted, index := "", false, 0;
    assert csv[0..] == csv;
    while index < |csv|
      invariant index <= |csv|
      invariant ScanAll(Toggling, START, csv) == ScanAll(Toggling, Scan(rows, row, field, quoted), csv[index..])
    {
      var c := csv[index];
      ghost var rest := csv[index..];
      assert rest[0] == c && (|rest| > 1 ==> rest[1] == csv[index + 1]);
      var n := 1;
      if c == '"' {
        if quoted && index + 1 < |csv| && csv[index + 1] == '"' {
          field, n := field + ['"'], 2;
        } else {
          quoted := !quoted;
        }
      } else if c == ',' && !quoted {
        row, field := row + [field], "";
      } else if (c == '\n' || c == '\r') && !quoted {
        if c == '\r' && index + 1 < |csv| && csv[index + 1] == '\n' {
          n := 2;
        }
        row, field := row + [field], "";
        rows := if Blank(row) then rows else rows + [Record(row)];
        row := [];
      } else {
        field := field + [c];
      }
      assert rest[n..] == csv[index + n..];
      index := index + n;
    }
    if quoted {
      return None;
    }
    row := row + [field];
    rows := if Blank(row) then rows else rows + [Record(row)];
    r := if 2 <= |rows| <= MAX_MEMBERS + 1 then Some(rows) else None;
  }

  /** Whether the number of rows is checked depends on the line end: the last row, if it has none, is not counted. */
  predicate TooManyRows(text: string) {
    |ScanAll(AtFieldStart, START, text).rows| > MAX_ROWS + 1
  }

  method ParseDomainBlockRows(input: string) returns (r: Option<seq<Record>>)
    ensures r == if input == "" || |input| > MAX_CSV_LENGTH || TooManyRows(input) then None else Rows(AtFieldStart, input)
  {
    if |input| == 0 || |input| > MAX_CSV_LENGTH {
      return None;
    }
    var rows: seq<Record> := [];
    var row: Row := [];
    var field, quoted, index := "", false, 0;
    assert input[0..] == input;
    while index < |input|
      invariant index <= |input| && |rows| <= MAX_ROWS + 1
      invariant ScanAll(AtFieldStart, START, input) == ScanAll(AtFieldStart, Scan(rows, row, field, quoted), input[index..])
    {
      var c := input[index];
      ghost var rest := input[index..];
      assert rest[0] == c && (|rest| > 1 ==> rest[1] == input[index + 1]);
      var n := 1;
      if quoted {
        if c == '"' {
          if index + 1 < |input| && input[index + 1] == '"' {
            field, n := field + ['"'], 2;
          } else {
            quoted := false;
          }
        } else {
          field := field + [c];
        }
      } else if c == '"' && |field| == 0 {
        quoted := true;
      } else if c == ',' {
        row, field := row + [field], "";
      } else if c == '\n' || c == '\r' {
        if c == '\r' && index + 1 < |input| && input[index + 1] == '\n' {
          n := 2;
        }
        row, field := row + [field], "";
        rows := if Blank(row) then rows else rows + [Record(row)];
        row := [];
        if |rows| > MAX_ROWS + 1 {
          assert rest[n..] == input[index + n..];
          RowsOnlyGrow(AtFieldStart, Scan(rows, row, field, quoted), input[index + n..]);
          return None;
        }
      } else {
        field := field + [c];
      }
      assert rest[n..] == input[index + n..];
      index := index + n;
    }
    if quoted {
      return None;
    }
    row := row + [field];
    rows := if Blank(row) then rows else rows + [Record(row)];
    r := Some(rows);
  }

  lemma {:induction false} RowsOnlyGrow(kind: Kind, s: Scan, text: string)
    ensures s.rows <= ScanAll(kind, s, text).rows
    decreases |text|
  {
    if text != "" {
      var (next, n) := Turn(kind, s, text);
      RowsOnlyGrow(kind, next, text[n..]);
    }
  }

  // ---------------------------------------------------------------- writing, by section 2 of RFC 4180

  /** A field as it is to be written; only one without special characters may go without quotes. */
  datatype Cell = Cell(text: string, quotes: bool)

  datatype End = LF | CRLF | CR | NoEnd

  datatype Line = Line(cells: seq<Cell>, end: End)

  predicate Special(c: char) {
    c == '"' || c == ',' || LineEnd(c)
  }

  predicate Plain(text: string) {
    forall i :: 0 <= i < |text| ==> !Special(text[i])
  }

  /** One character as it stands inside quotes. */
  function Inside(c: char): string {
    if c == '"' then "\"\"" else [c]
  }

  /** Every quote of the text doubled. */
  function Doubled(text: string): string {
    if text == "" then "" else Inside(text[0]) + Doubled(text[1..])
  }

  function WriteCell(c: Cell): string {
    if c.quotes then "\"" + Doubled(c.text) + "\"" else c.text
  }

  function WriteCells(cells: seq<Cell>): string {
    if cells == [] then ""
    else if |cells| == 1 then WriteCell(cells[0])
    else WriteCell(cells[0]) + "," + WriteCells(cells[1..])
  }

  function EndText(e: End): string {
    match e
    case LF => "\n"
    case CRLF => "\r\n"
    case CR => "\r"
    case NoEnd => ""
  }

  function Write(lines: seq<Line>): string {
    if lines == [] then "" else WriteCells(lines[0].cells) + EndText(lines[0].end) + Write(lines[1..])
  }

  function Texts(cells: seq<Cell>): Row {
    if cells == [] then [] else [cells[0].text] + Texts(cells[1..])
  }

  function Table(lines: seq<Line>): (r: seq<Record>)
    ensures |r| == |lines|
  {
    if lines == [] then [] else [Record(Texts(lines[0].cells))] + Table(lines[1..])
  }

  predicate CellAllowed(c: Cell) {
    c.quotes || Plain(c.text)
  }

  predicate CellsAllowed(cells: seq<Cell>) {
    cells == [] || (CellAllowed(cells[0]) && CellsAllowed(cells[1..]))
  }

  predicate HasText(cells: seq<Cell>) {
    cells != [] && (cells[0].text != "" || HasText(cells[1..]))
  }

  /** A line with some text in it, each special character inside quotes. */
  predicate LineAllowed(l: Line) {
    CellsAllowed(l.cells) && HasText(l.cells)
  }

  /** Only the last line may lack its line end. */
  predicate Allowed(lines: seq<Line>) {
    lines == [] || (LineAllowed(lines[0]) && (lines[0].end.NoEnd? ==> |lines| == 1) && Allowed(lines[1..]))
  }

  // ---------------------------------------------------------------- what is written is read back

  /** Behind a field comes a comma, a line end or nothing. */
  predicate Delimits(rest: string) {
    rest == "" || rest[0] == ',' || LineEnd(rest[0])
  }

  lemma TakeThen(field: string, text: string)
    requires text != ""
    ensures field + [text[0]] + text[1..] == field + text
  {
  }

  lemma {:induction false} PlainScans(kind: Kind, s: Scan, text: string, rest: string)
    requires !s.quoted && Plain(text)
    ensures ScanAll(kind, s, text + rest) == ScanAll(kind, s.(field := s.field + text), rest)
    decreases |text|
  {
    if text == "" {
      assert text + rest == rest && s.field + text == s.field;
    } else {
      assert !Special(text[0]);
      assert (text + rest)[1..] == text[1..] + rest;
      PlainScans(kind, Take(s, text[0]), text[1..], rest);
      TakeThen(s.field, text);
    }
  }

  lemma InsideScans(kind: Kind, s: Scan, c: char, later: string)
    requires s.quoted
    ensures ScanAll(kind, s, Inside(c) + later) == ScanAll(kind, Take(s, c), later)
  {
    var all := Inside(c) + later;
    assert all[|Inside(c)|..] == later;
  }

  lemma QuoteCloses(kind: Kind, s: Scan, rest: string)
    requires s.quoted && Delimits(rest)
    ensures ScanAll(kind, s, "\"" + rest) == ScanAll(kind, s.(quoted := false), rest)
  {
    var all := "\"" + rest;
    assert all[1..] == rest;
    assert |all| > 1 ==> all[1] == rest[0];
  }

  lemma NothingMore(field: string, tail: string)
    ensures field + "" == field && Doubled("") + tail == tail
  {
  }

  lemma DoubledNext(text: string, tail: string)
    requires text != ""
    ensures Doubled(text) + tail == Inside(text[0]) + (Doubled(text[1..]) + tail)
  {
  }

  lemma {:induction false} QuotedScans(kind: Kind, s: Scan, text: string, rest: string)
    requires s.quoted && Delimits(rest)
    ensures ScanAll(kind, s, Doubled(text) + ("\"" + rest)) == ScanAll(kind, s.(field := s.field + text, quoted := false), rest)
    decreases |text|
  {
    if text == "" {
      NothingMore(s.field, "\"" + rest);
      QuoteCloses(kind, s, rest);
    } else {
      var later := Doubled(text[1..]) + ("\"" + rest);
      DoubledNext(text, "\"" + rest);
      InsideScans(kind, s, text[0], later);
      QuotedScans(kind, Take(s, text[0]), text[1..], rest);
      TakeThen(s.field, text);
    }
  }

  lemma CellScans(kind: Kind, s: Scan, c: Cell, rest: string)
    requires !s.quoted && s.field == "" && CellAllowed(c) && Delimits(rest)
    ensures ScanAll(kind, s, WriteCell(c) + rest) == ScanAll(kind, s.(field := c.text), rest)
  {
    assert "" + c.text == c.text;
    if c.quotes {
      assert (WriteCell(c) + rest)[1..] == Doubled(c.text) + ("\"" + rest);
      QuotedScans(kind, s.(quoted := true), c.text, rest);
    } else {
      PlainScans(kind, s, c.text, rest);
    }
  }

  /** The state at the end of a line: all fields but the last are in the row. */
  function AfterCells(s: Scan, cells: seq<Cell>): Scan
    requires cells != []
    decreases |cells|
  {
    if |cells| == 1 then s.(field := cells[0].text)
    else AfterCells(s.(row := s.row + [cells[0].text], field := ""), cells[1..])
  }

  lemma {:induction false} AfterCellsRow(s: Scan, cells: seq<Cell>)
    requires cells != []
    ensures AfterCells(s, cells).row + [AfterCells(s, cells).field] == s.row + Texts(cells)
    ensures AfterCells(s, cells).rows == s.rows && AfterCells(s, cells).quoted == s.quoted
    decreases |cells|
  {
    if |cells| == 1 {
      assert Texts(cells) == [cells[0].text];
    } else {
      AfterCellsRow(s.(row := s.row + [cells[0].text], field := ""), cells[1..]);
      assert s.row + [cells[0].text] + Texts(cells[1..]) == s.row + Texts(cells);
    }
  }

  lemma CommaScans(kind: Kind, s: Scan, later: string)
    requires !s.quoted
    ensures ScanAll(kind, s, "," + later) == ScanAll(kind, EndField(s), later)
  {
    assert ("," + later)[1..] == later;
  }

  lemma {:induction false} CellsScan(kind: Kind, s: Scan, cells: seq<Cell>, rest: string)
    requires !s.quoted && s.field == "" && cells != [] && (rest == "" || LineEnd(rest[0]))
    requires CellsAllowed(cells)
    ensures ScanAll(kind, s, WriteCells(cells) + rest) == ScanAll(kind, AfterCells(s, cells), rest)
    decreases |cells|
  {
    if |cells| == 1 {
      CellScans(kind, s, cells[0], rest);
    } else {
      var later := WriteCells(cells[1..]) + rest;
      CellThenComma(cells, rest);
      CellScans(kind, s, cells[0], "," + later);
      CommaScans(kind, s.(field := cells[0].text), later);
      CellsScan(kind, s.(row := s.row + [cells[0].text], field := ""), cells[1..], rest);
    }
  }

  lemma CellThenComma(cells: seq<Cell>, rest: string)
    requires |cells| > 1
    ensures WriteCells(cells) + rest == WriteCell(cells[0]) + ("," + (WriteCells(cells[1..]) + rest))
  {
    Joined(WriteCell(cells[0]), ",", WriteCells(cells[1..]));
    Joined(WriteCell(cells[0]), "," + WriteCells(cells[1..]), rest);
    Joined(",", WriteCells(cells[1..]), rest);
  }

  lemma EndScans(kind: Kind, s: Scan, e: End, rest: string)
    requires !s.quoted && !e.NoEnd? && (e.CR? ==> rest == "" || rest[0] != '\n')
    ensures ScanAll(kind, s, EndText(e) + rest) == ScanAll(kind, EndRow(s), rest)
  {
    var text := EndText(e) + rest;
    assert text[|EndText(e)|..] == rest;
    assert e.CR? && |text| > 1 ==> text[1] == rest[0];
  }

  /** The state at the start of a line: complete rows only. */
  function Between(rows: seq<Record>): Scan {
    Scan(rows, [], "", false)
  }

  lemma {:induction false} TextIsNotBlank(cells: seq<Cell>)
    requires HasText(cells)
    ensures !Blank(Texts(cells))
  {
    var texts := Texts(cells);
    assert texts[0] == cells[0].text;
    if cells[0].text == "" {
      TextIsNotBlank(cells[1..]);
      var i :| 0 <= i < |Texts(cells[1..])| && Texts(cells[1..])[i] != "";
      assert texts[i + 1] == Texts(cells[1..])[i];
    }
  }

  lemma RowEnds(rows: seq<Record>, cells: seq<Cell>)
    requires HasText(cells)
    ensures EndRow(AfterCells(Between(rows), cells)) == Between(rows + [Record(Texts(cells))])
  {
    AfterCellsRow(Between(rows), cells);
    assert [] + Texts(cells) == Texts(cells);
    TextIsNotBlank(cells);
  }

  lemma CellsStart(cells: seq<Cell>)
    requires CellsAllowed(cells) && HasText(cells)
    ensures WriteCells(cells) != "" && WriteCells(cells)[0] != '\n'
  {
    var first := WriteCell(cells[0]);
    if |cells| == 1 {
      assert cells[1..] == [] && cells[0].text != "";
    }
    if first == "" {
      assert WriteCells(cells) == "," + WriteCells(cells[1..]);
    } else {
      assert WriteCells(cells)[0] == first[0];
      assert first[0] == '"' || !Special(first[0]);
    }
  }

  /** What is written does not start with a line feed. */
  lemma WriteStarts(lines: seq<Line>)
    requires Allowed(lines) && lines != []
    ensures Write(lines) != "" && Write(lines)[0] != '\n'
  {
    CellsStart(lines[0].cells);
  }

  lemma LineScans(kind: Kind, rows: seq<Record>, l: Line, later: string)
    requires LineAllowed(l) && (l.end.NoEnd? ==> later == "") && (later != "" ==> later[0] != '\n')
    ensures l.cells != []
    ensures ScanAll(kind, Between(rows), WriteCells(l.cells) + EndText(l.end) + later) ==
      if l.end.NoEnd? then AfterCells(Between(rows), l.cells) else ScanAll(kind, Between(rows + [Record(Texts(l.cells))]), later)
  {
    var open := AfterCells(Between(rows), l.cells);
    RowEnds(rows, l.cells);
    AfterCellsRow(Between(rows), l.cells);
    assert WriteCells(l.cells) + EndText(l.end) + later == WriteCells(l.cells) + (EndText(l.end) + later);
    CellsScan(kind, Between(rows), l.cells, EndText(l.end) + later);
    if l.end.NoEnd? {
      assert EndText(l.end) + later == "";
    } else {
      EndScans(kind, open, l.end, later);
    }
  }

  /** Lines whose line end is missing: none, or the last. */
  function Unended(lines: seq<Line>): nat {
    if lines != [] && lines[|lines| - 1].end.NoEnd? then 1 else 0
  }

  lemma LastLine(kind: Kind, rows: seq<Record>, lines: seq<Line>)
    requires Allowed(lines) && |lines| == 1 && lines[0].end.NoEnd?
    ensures var last := ScanAll(kind, Between(rows), Write(lines));
      !last.quoted && EndRow(last).rows == rows + Table(lines) && |last.rows| == |rows|
  {
    var l := lines[0];
    assert lines[1..] == [];
    LineScans(kind, rows, l, "");
    assert Write(lines) == WriteCells(l.cells) + EndText(l.end) + "";
    RowEnds(rows, l.cells);
    AfterCellsRow(Between(rows), l.cells);
    assert Table(lines) == [Record(Texts(l.cells))];
  }

  lemma TableNext(rows: seq<Record>, lines: seq<Line>)
    requires lines != []
    ensures rows + [Record(Texts(lines[0].cells))] + Table(lines[1..]) == rows + Table(lines)
  {
    Joined(rows, [Record(Texts(lines[0].cells))], Table(lines[1..]));
  }

  lemma Joined<T>(a: seq<T>, b: seq<T>, c: seq<T>)
    ensures a + b + c == a + (b + c)
  {
  }

  /** Scanning what is written adds its table; the last line stays open if it has no line end. */
  lemma {:induction false} WrittenScans(kind: Kind, rows: seq<Record>, lines: seq<Line>)
    requires Allowed(lines)
    ensures var last := ScanAll(kind, Between(rows), Write(lines));
      && !last.quoted && EndRow(last).rows == rows + Table(lines)
      && |last.rows| == |rows| + |lines| - Unended(lines)
    decreases |lines|
  {
    if lines == [] {
      assert rows + Table(lines) == rows;
    } else if lines[0].end.NoEnd? {
      LastLine(kind, rows, lines);
    } else {
      var more := rows + [Record(Texts(lines[0].cells))];
      if lines[1..] != [] {
        WriteStarts(lines[1..]);
      }
      LineScans(kind, rows, lines[0], Write(lines[1..]));
      WrittenScans(kind, more, lines[1..]);
      TableNext(rows, lines);
    }
  }

  /** Both scanners give back exactly the table that was written, so they agree on all well-formed text. */
  lemma ScannersReadBack(kind: Kind, lines: seq<Line>)
    requires Allowed(lines)
    ensures Rows(kind, Write(lines)) == Some(Table(lines))
  {
    WrittenScans(kind, [], lines);
    assert [] + Table(lines) == Table(lines);
  }

  /** A written list of domain blocks is refused for its rows exactly when more than the limit of them have a line end. */
  lemma RowLimitCountsLineEnds(lines: seq<Line>)
    requires Allowed(lines)
    ensures TooManyRows(Write(lines)) <==> |lines| - Unended(lines) > MAX_ROWS + 1
  {
    WrittenScans(AtFieldStart, [], lines);
  }

  // ---------------------------------------------------------------- other text

  /** Some quote stands in a field that has begun without one. */
  predicate BareQuote(s: Scan, text: string)
    decreases |text|
  {
    text != "" &&
    ((text[0] == '"' && !s.quoted && s.field != "") ||
     (var (next, n) := Turn(AtFieldStart, s, text); BareQuote(next, text[n..])))
  }

  /** Whatever the text, well formed or not, the scanners agree if no quote stands bare. */
  lemma {:induction false} AgreeWithoutBareQuotes(s: Scan, text: string)
    requires !BareQuote(s, text)
    ensures ScanAll(Toggling, s, text) == ScanAll(AtFieldStart, s, text)
    decreases |text|
  {
    if text != "" {
      var (next, n) := Turn(AtFieldStart, s, text);
      assert Turn(Toggling, s, text) == (next, n);
      AgreeWithoutBareQuotes(next, text[n..]);
    }
  }

  // ---------------------------------------------------------------- where a quote stands bare

  /** The rows a scan ends with. */
  function Out(kind: Kind, s: Scan, text: string): seq<Record> {
    EndRow(ScanAll(kind, s, text)).rows
  }

  predicate Unbroken(text: string) {
    forall i :: 0 <= i < |text| ==> text[i] != ',' && !LineEnd(text[i])
  }

  /** A row with text in a finished field comes out, beginning with its finished fields. */
  lemma {:induction false} RowComesOut(kind: Kind, s: Scan, text: string)
    requires !Blank(s.row)
    ensures var out := Out(kind, s, text); |out| > |s.rows| && s.row <= out[|s.rows|].fields
    decreases |text|
  {
    var i :| 0 <= i < |s.row| && s.row[i] != "";
    assert (s.row + [s.field])[i] != "";
    if text == "" {
    } else {
      var (next, n) := Turn(kind, s, text);
      RowsOnlyGrow(kind, next, text[n..]);
      if next.rows == s.rows {
        assert next.row == s.row || next.row == s.row + [s.field];
        assert next.row[i] != "";
        RowComesOut(kind, next, text[n..]);
      }
    }
  }

  /** A field that has begun comes out in its place, as it is if it ends here, and longer otherwise. */
  lemma {:induction false} FieldComesOut(kind: Kind, s: Scan, text: string)
    requires s.field != ""
    ensures var out := Out(kind, s, text);
      && |out| > |s.rows| && |out[|s.rows|].fields| > |s.row|
      && s.field <= out[|s.rows|].fields[|s.row|]
      && (!s.quoted && Delimits(text) ==> out[|s.rows|].fields[|s.row|] == s.field)
    decreases |text|
  {
    var row := s.row + [s.field];
    assert row[|s.row|] == s.field;
    if text == "" {
    } else {
      var (next, n) := Turn(kind, s, text);
      RowsOnlyGrow(kind, next, text[n..]);
      if next.rows != s.rows {
        assert next.rows == s.rows + [Record(row)];
      } else if next.row != s.row {
        assert next.row == row;
        RowComesOut(kind, next, text[n..]);
      } else {
        FieldComesOut(kind, next, text[n..]);
      }
    }
  }

  /** A field that began without a quote keeps every quote in the one scan. */
  lemma {:induction false} BareQuotesStay(s: Scan, text: string, rest: string)
    requires !s.quoted && s.field != "" && Unbroken(text)
    ensures ScanAll(AtFieldStart, s, text + rest) == ScanAll(AtFieldStart, s.(field := s.field + text), rest)
    decreases |text|
  {
    if text == "" {
      assert text + rest == rest && s.field + text == s.field;
    } else {
      assert (text + rest)[1..] == text[1..] + rest;
      BareQuotesStay(Take(s, text[0]), text[1..], rest);
      TakeThen(s.field, text);
    }
  }

  /** The other scan takes no more than there is, and at least one quote less if it opens one here. */
  lemma {:induction false} BareQuotesGo(s: Scan, text: string, rest: string) returns (taken: string, quoted: bool)
    requires Unbroken(text) && Delimits(rest)
    ensures ScanAll(Toggling, s, text + rest) == ScanAll(Toggling, s.(field := s.field + taken, quoted := quoted), rest)
    ensures |taken| <= |text| && Unbroken(taken)
    ensures text != "" && text[0] == '"' && !s.quoted ==> |taken| < |text|
    decreases |text|
  {
    if text == "" {
      taken, quoted := "", s.quoted;
      assert text + rest == rest && s.field + "" == s.field;
    } else {
      var (next, n) := Turn(Toggling, s, text + rest);
      TurnInWord(s, text, rest);
      taken, quoted := BareQuotesGo(next, text[n..], rest);
      if next.field != s.field {
        Joined(s.field, [text[0]], taken);
        taken := [text[0]] + taken;
      }
    }
  }

  /** A turn within a field at most adds its character to the field, and does not for a quote that opens. */
  lemma TurnInWord(s: Scan, text: string, rest: string)
    requires text != "" && Unbroken(text) && Delimits(rest)
    ensures var (next, n) := Turn(Toggling, s, text + rest);
      && n <= |text| && (text + rest)[n..] == text[n..] + rest
      && next == s.(field := next.field, quoted := next.quoted)
      && (next.field == s.field || next.field == s.field + [text[0]])
      && (text[0] == '"' && !s.quoted ==> next.field == s.field)
  {
    var all := text + rest;
    assert all[0] == text[0] && (|all| > 1 ==> all[1] == if |text| > 1 then text[1] else rest[0]);
  }

  /** The part of a text before its first comma or line end. */
  function FieldEnd(text: string): (n: nat)
    ensures n <= |text| && Unbroken(text[..n]) && Delimits(text[n..])
  {
    if text == "" || text[0] == ',' || LineEnd(text[0]) then 0
    else
      var n := 1 + FieldEnd(text[1..]);
      assert text[..n] == [text[0]] + text[1..][..n - 1];
      n
  }

  /** From a bare quote on the scans come to different rows, unless one of them is left inside quotes. */
  lemma PartAtBareQuote(s: Scan, text: string)
    requires !s.quoted && s.field != "" && text != "" && text[0] == '"'
    requires !ScanAll(Toggling, s, text).quoted
    ensures Out(Toggling, s, text) != Out(AtFieldStart, s, text)
  {
    var n := FieldEnd(text);
    var word, rest := text[..n], text[n..];
    assert text == word + rest && word[0] == '"';
    BareQuotesStay(s, word, rest);
    FieldComesOut(AtFieldStart, s.(field := s.field + word), rest);
    var taken, quoted := BareQuotesGo(s, word, rest);
    var t := s.(field := s.field + taken, quoted := quoted);
    if !quoted {
      FieldComesOut(Toggling, t, rest);
      assert |s.field + taken| < |s.field + word|;
    } else {
      assert rest != "";
      LongerThan(s.field, taken, rest[0], word);
      assert Turn(Toggling, t, rest) == (Take(t, rest[0]), 1);
      FieldComesOut(Toggling, Take(t, rest[0]), rest[1..]);
    }
  }

  lemma LongerThan(field: string, taken: string, end: char, word: string)
    requires Unbroken(word) && (end == ',' || LineEnd(end))
    ensures !(field + taken + [end] <= field + word)
  {
    var k := |field + taken|;
    assert (field + taken + [end])[k] == end;
    assert k < |field + word| ==> (field + word)[k] == word[|taken|];
  }

  lemma {:induction false} BareQuotesPart(s: Scan, text: string)
    requires BareQuote(s, text) && !ScanAll(Toggling, s, text).quoted
    ensures Out(Toggling, s, text) != Out(AtFieldStart, s, text)
    decreases |text|
  {
    if text[0] == '"' && !s.quoted && s.field != "" {
      PartAtBareQuote(s, text);
    } else {
      var (next, n) := Turn(AtFieldStart, s, text);
      assert Turn(Toggling, s, text) == (next, n);
      BareQuotesPart(next, text[n..]);
    }
  }

  /** The scanners agree on a text exactly when no quote stands bare in it, or both refuse it. */
  lemma AgreeExactly(text: string)
    ensures Rows(Toggling, text) == Rows(AtFieldStart, text)
      <==> !BareQuote(START, text) || (Rows(Toggling, text).None? && Rows(AtFieldStart, text).None?)
  {
    if !BareQuote(START, text) {
      AgreeWithoutBareQuotes(START, text);
    } else if Rows(Toggling, text).Some? {
      BareQuotesPart(START, text);
    }
  }

  lemma ScanOne(kind: Kind, s: Scan, c: char, later: string)
    requires c == '"' ==> later == "" || later[0] != '"'
    requires !LineEnd(c)
    ensures ScanAll(kind, s, [c] + later) == ScanAll(kind, Turn(kind, s, [c]).0, later)
  {
    assert ([c] + later)[1..] == later;
  }

  lemma ScanBareQuotes(kind: Kind)
    ensures ScanAll(kind, START, "a\"b\"") ==
      Turn(kind, Turn(kind, Turn(kind, Take(START, 'a'), "\"").0, "b").0, "\"").0
  {
    var a := Take(START, 'a');
    var b := Turn(kind, a, "\"").0;
    var c := Turn(kind, b, "b").0;
    assert "a\"b\"" == ['a'] + "\"b\"" && "\"b\"" == ['"'] + "b\"" && "b\"" == ['b'] + "\"" && "\"" == ['"'] + "";
    ScanOne(kind, START, 'a', "\"b\"");
    ScanOne(kind, a, '"', "b\"");
    ScanOne(kind, b, 'b', "\"");
    ScanOne(kind, c, '"', "");
  }

  lemma FourTurns()
    ensures var b := Turn(Toggling, Take(START, 'a'), "\"").0;
      var d := Turn(Toggling, Turn(Toggling, b, "b").0, "\"").0;
      d == Scan([], [], [] + ['a'] + ['b'], false)
    ensures var b := Turn(AtFieldStart, Take(START, 'a'), "\"").0;
      var d := Turn(AtFieldStart, Turn(AtFieldStart, b, "b").0, "\"").0;
      d == Scan([], [], [] + ['a'] + ['"'] + ['b'] + ['"'], false)
  {
  }

  /** For instance: one drops the quotes, the other keeps them. */
  lemma BareQuotesDivide()
    ensures Rows(Toggling, "a\"b\"") == Some([Record(["ab"])])
    ensures Rows(AtFieldStart, "a\"b\"") == Some([Record(["a\"b\""])])
  {
    FourTurns();
    Letters();
    ScanBareQuotes(Toggling);
    OneRow("ab");
    ScanBareQuotes(AtFieldStart);
    OneRow("a\"b\"");
  }

  lemma Letters()
    ensures [] + ['a'] + ['b'] == "ab" && [] + ['a'] + ['"'] + ['b'] + ['"'] == "a\"b\""
  {
  }

  lemma OneRow(field: string)
    requires field != ""
    ensures EndRow(Scan([], [], field, false)).rows == [Record([field])]
  {
    var row: Row := [] + [field];
    assert row[0] != "" && row == [field];
    assert [] + [Record(row)] == [Record(row)];
  }
}
