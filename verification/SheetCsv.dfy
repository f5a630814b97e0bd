/** How the preview server prints the best rows of a workbook sheet as CSV text. */
module SheetCsv {
  import opened Numbers
  import opened Options

  type Row = seq<string>

  // ----------------------------------------------------------- whitespace

  /** The characters matched by `\s` and removed by `trim` in JavaScript. */
  predicate IsSpace(c: char) {
    || c == ' ' || '\t' <= c <= '\r' || c == '\U{00a0}' || c == '\U{1680}' || '\U{2000}' <= c <= '\U{200a}'
    || c == '\U{2028}' || c == '\U{2029}' || c == '\U{202f}' || c == '\U{205f}' || c == '\U{3000}' || c == '\U{feff}'
  }

  /** `s.replace(/\s+/g, " ")`; `inRun` tells whether the run at hand has been written. */
  function Collapse(s: string, inRun: bool): string {
    if s == "" then ""
    else if !IsSpace(s[0]) then [s[0]] + Collapse(s[1..], false)
    else if inRun then Collapse(s[1..], true)
    else [' '] + Collapse(s[1..], true)
  }

  function TrimStart(s: string): string {
    if s != "" && IsSpace(s[0]) then TrimStart(s[1..]) else s
  }

  function TrimEnd(s: string): string {
    if s != "" && IsSpace(s[|s|-1]) then TrimEnd(s[..|s|-1]) else s
  }

  /** `cleanPreviewText` */
  function Clean(s: string): string {
    TrimEnd(TrimStart(Collapse(s, false)))
  }

  /** Words separated by single blanks. */
  ghost predicate Tidy(s: string) {
    && (forall i :: 0 <= i < |s| && IsSpace(s[i]) ==> s[i] == ' ')
    && (forall i :: 0 <= i < |s| - 1 ==> !(s[i] == ' ' && s[i+1] == ' '))
    && (s != "" ==> s[0] != ' ' && s[|s|-1] != ' ')
  }

  ghost predicate SingleBlanks(s: string) {
    && (forall i :: 0 <= i < |s| && IsSpace(s[i]) ==> s[i] == ' ')
    && (forall i :: 0 <= i < |s| - 1 ==> !(s[i] == ' ' && s[i+1] == ' '))
  }

  lemma {:induction false} CollapseSingle(s: string, inRun: bool)
    ensures SingleBlanks(Collapse(s, inRun))
    ensures inRun && Collapse(s, inRun) != "" ==> Collapse(s, inRun)[0] != ' '
  {
    if s != "" {
      CollapseSingle(s[1..], IsSpace(s[0]));
    }
  }

  lemma {:induction false} TrimStartSingle(s: string)
    requires SingleBlanks(s)
    ensures SingleBlanks(TrimStart(s)) && (TrimStart(s) != "" ==> !IsSpace(TrimStart(s)[0]))
  {
    if s != "" && IsSpace(s[0]) { TrimStartSingle(s[1..]); }
  }

  lemma {:induction false} TrimEndSingle(s: string)
    requires SingleBlanks(s) && (s != "" ==> !IsSpace(s[0]))
    ensures Tidy(TrimEnd(s))
  {
    if s != "" && IsSpace(s[|s|-1]) { TrimEndSingle(s[..|s|-1]); }
  }

  lemma CleanIsTidy(s: string)
    ensures Tidy(Clean(s))
  {
    CollapseSingle(s, false);
    TrimStartSingle(Collapse(s, false));
    TrimEndSingle(TrimStart(Collapse(s, false)));
  }

  lemma {:induction false} CollapseKeepsSingle(s: string, inRun: bool)
    requires SingleBlanks(s) && (inRun && s != "" ==> s[0] != ' ')
    ensures Collapse(s, inRun) == s
  {
    if s != "" {
      CollapseKeepsSingle(s[1..], IsSpace(s[0]));
    }
  }

  /** Cleaning leaves clean text alone. */
  lemma CleanKeepsTidy(s: string)
    requires Tidy(s)
    ensures Clean(s) == s
  {
    CollapseKeepsSingle(s, false);
  }

  // ------------------------------------------------------------ printing

  /** `normalizeSheetRow`: one more than the index of the last cell with text. */
  function TextWidth(row: Row): (n: nat)
    ensures n <= |row|
    ensures n > 0 ==> Clean(row[n-1]) != ""
    ensures forall i :: n <= i < |row| ==> Clean(row[i]) == ""
  {
    if row == [] then 0
    else if Clean(row[|row|-1]) != "" then |row|
    else TextWidth(row[..|row|-1])
  }

  const MAX_COLUMNS := 80

  function Normalize(row: Row): (r: Row)
    ensures |r| == if TextWidth(row) < MAX_COLUMNS then TextWidth(row) else MAX_COLUMNS
    ensures forall i :: 0 <= i < |r| ==> r[i] == Clean(row[i])
  {
    var width := if TextWidth(row) < MAX_COLUMNS then TextWidth(row) else MAX_COLUMNS;
    seq(width, i requires 0 <= i < width => Clean(row[i]))
  }

  predicate NeedsQuotes(text: string) {
    '"' in text || ',' in text || '\n' in text
  }

  /** How a character is written between quotes. */
  function Doubled(c: char): string {
    if c == '"' then [c, c] else [c]
  }

  function DoubleQuotes(text: string): string {
    if text == "" then "" else Doubled(text[0]) + DoubleQuotes(text[1..])
  }

  /** `csvCell` */
  function Cell(text: string): string {
    if NeedsQuotes(text) then "\"" + DoubleQuotes(text) + "\"" else text
  }

  function Line(row: Row): string {
    if row == [] then ""
    else if |row| == 1 then Cell(row[0])
    else Cell(row[0]) + "," + Line(row[1..])
  }

  /** The lines of a sheet sample, joined by line breaks. */
  function Print(rows: seq<Row>): string {
    if rows == [] then ""
    else if |rows| == 1 then Line(rows[0])
    else Line(rows[0]) + "\n" + Print(rows[1..])
  }

  // ------------------------------------------------------------- reading

  datatype Mode = Start | Bare | Quoted | Closed

  /** Where a reader is: what it has read of the current field and the fields before it. */
  datatype Reader = Reader(mode: Mode, field: string, row: Row)

  datatype Action = Continue(reader: Reader) | EndRecord(row: Row) | Fail

  const FRESH := Reader(Start, "", [])

  /** Section 2 of RFC 4180, with LF line breaks, one character at a time. */
  function Next(c: char, r: Reader): Action {
    match r.mode
    case Quoted => Continue(if c == '"' then r.(mode := Closed) else r.(field := r.field + [c]))
    case _ =>
      if c == ',' then Continue(Reader(Start, "", r.row + [r.field]))
      else if c == '\n' then EndRecord(r.row + [r.field])
      else if c == '"' then
        if r.mode == Start then Continue(r.(mode := Quoted))
        else if r.mode == Closed then Continue(Reader(Quoted, r.field + [c], r.row))
        else Fail
      else if r.mode == Closed || c == '\r' then Fail
      else Continue(Reader(Bare, r.field + [c], r.row))
  }

  /** The line break after the last record is optional. */
  function AtEnd(r: Reader): Option<seq<Row>> {
    if r.mode == Quoted then None
    else if r.mode == Start && r.row == [] then Some([])
    else Some([r.row + [r.field]])
  }

  function AddRow(row: Row, rows: Option<seq<Row>>): Option<seq<Row>> {
    match rows
    case None => None
    case Some(rest) => Some([row] + rest)
  }

  function Read(s: string, r: Reader): Option<seq<Row>> {
    if s == "" then AtEnd(r)
    else
      match Next(s[0], r)
      case Continue(r') => Read(s[1..], r')
      case EndRecord(row) => AddRow(row, Read(s[1..], FRESH))
      case Fail => None
  }

  function Parse(s: string): Option<seq<Row>> {
    Read(s, FRESH)
  }

  // ---------------------------------------------------------- round trip

  ghost predicate NoReturns(rows: seq<Row>) {
    forall i, j :: 0 <= i < |rows| && 0 <= j < |rows[i]| ==> '\r' !in rows[i][j]
  }

  /** A delimiter, or nothing more. */
  ghost predicate Delimited(rest: string) {
    rest == "" || rest[0] == ',' || rest[0] == '\n'
  }

  lemma ReadOne(c: char, rest: string, r: Reader)
    ensures Next(c, r).Continue? ==> Read([c] + rest, r) == Read(rest, Next(c, r).reader)
    ensures Next(c, r).EndRecord? ==> Read([c] + rest, r) == AddRow(Next(c, r).row, Read(rest, FRESH))
  {
    assert ([c] + rest)[1..] == rest;
  }

  lemma {:induction false} ReadBare(text: string, rest: string, field: string, row: Row)
    requires !NeedsQuotes(text) && '\r' !in text
    ensures Read(text + rest, Reader(Bare, field, row)) == Read(rest, Reader(Bare, field + text, row))
  {
    if text == "" {
      assert text + rest == rest && field + text == field;
    } else {
      assert text[0] in text;
      assert forall c :: c in text[1..] ==> c in text;
      ReadBare(text[1..], rest, field + [text[0]], row);
      assert text + rest == [text[0]] + (text[1..] + rest);
      ReadOne(text[0], text[1..] + rest, Reader(Bare, field, row));
      assert field + [text[0]] + text[1..] == field + text;
    }
  }

  lemma {:induction false} ReadQuoted(text: string, rest: string, field: string, row: Row)
    ensures Read(DoubleQuotes(text) + rest, Reader(Quoted, field, row)) == Read(rest, Reader(Quoted, field + text, row))
  {
    if text == "" {
      assert DoubleQuotes(text) + rest == rest && field + text == field;
    } else {
      ReadQuoted(text[1..], rest, field + [text[0]], row);
      QuotedStep(text[0], DoubleQuotes(text[1..]) + rest, field, row);
      QuotedCons(text[0], text[1..], rest, field);
      assert [text[0]] + text[1..] == text;
    }
  }

  lemma QuotedCons(c: char, tail: string, rest: string, field: string)
    ensures DoubleQuotes([c] + tail) + rest == Doubled(c) + (DoubleQuotes(tail) + rest)
    ensures field + [c] + tail == field + ([c] + tail)
  {
    assert ([c] + tail)[1..] == tail;
  }

  lemma QuotedStep(c: char, tail: string, field: string, row: Row)
    ensures Read(Doubled(c) + tail, Reader(Quoted, field, row)) == Read(tail, Reader(Quoted, field + [c], row))
  {
    if c == '"' {
      assert Doubled(c) + tail == [c] + ([c] + tail);
      ReadOne(c, [c] + tail, Reader(Quoted, field, row));
      ReadOne(c, tail, Reader(Closed, field, row));
    } else {
      ReadOne(c, tail, Reader(Quoted, field, row));
    }
  }

  /** What is read once the field `text` and the fields of `row` before it are complete. */
  ghost function AfterField(text: string, row: Row, rest: string): Option<seq<Row>>
    requires Delimited(rest)
  {
    if rest == "" then Some([row + [text]])
    else if rest[0] == ',' then Read(rest[1..], Reader(Start, "", row + [text]))
    else AddRow(row + [text], Parse(rest[1..]))
  }

  /** Bare, closed and empty fields end the same way. */
  lemma FieldEnds(rest: string, r: Reader)
    requires Delimited(rest) && r.mode != Quoted && (r.mode == Start ==> r.field == "" && (rest == "" ==> r.row != []))
    ensures Read(rest, r) == AfterField(r.field, r.row, rest)
  {
  }

  /** Reading a printed cell gives the cell back. */
  lemma ReadCell(text: string, rest: string, row: Row)
    requires '\r' !in text && Delimited(rest) && (text == "" && rest == "" ==> row != [])
    ensures Read(Cell(text) + rest, Reader(Start, "", row)) == AfterField(text, row, rest)
  {
    if NeedsQuotes(text) {
      ReadQuotedCell(text, rest, row);
    } else if text == "" {
      assert Cell(text) + rest == rest;
      FieldEnds(rest, Reader(Start, "", row));
    } else {
      ReadBareCell(text, rest, row);
    }
  }

  lemma ReadQuotedCell(text: string, rest: string, row: Row)
    requires Delimited(rest)
    ensures Read("\"" + DoubleQuotes(text) + "\"" + rest, Reader(Start, "", row)) == AfterField(text, row, rest)
  {
    var inner := DoubleQuotes(text) + (['"'] + rest);
    assert "\"" + DoubleQuotes(text) + "\"" + rest == ['"'] + inner;
    ReadOne('"', inner, Reader(Start, "", row));
    ReadQuoted(text, ['"'] + rest, "", row);
    assert "" + text == text;
    ReadOne('"', rest, Reader(Quoted, text, row));
    FieldEnds(rest, Reader(Closed, text, row));
  }

  lemma ReadBareCell(text: string, rest: string, row: Row)
    requires '\r' !in text && !NeedsQuotes(text) && text != "" && Delimited(rest)
    ensures Read(text + rest, Reader(Start, "", row)) == AfterField(text, row, rest)
  {
    var c, tail := text[0], text[1..];
    assert text == [c] + tail;
    TailIsBare(c, tail);
    BareFrom(c, tail, rest, row);
    FieldEnds(rest, Reader(Bare, text, row));
  }

  lemma BareFrom(c: char, tail: string, rest: string, row: Row)
    requires '\r' !in tail && !NeedsQuotes(tail) && c != ',' && c != '\n' && c != '"' && c != '\r'
    ensures Read([c] + tail + rest, Reader(Start, "", row)) == Read(rest, Reader(Bare, [c] + tail, row))
  {
    assert [c] + tail + rest == [c] + (tail + rest);
    FirstBare(c, tail + rest, row);
    ReadBare(tail, rest, [c], row);
  }

  lemma TailIsBare(c: char, tail: string)
    requires '\r' !in [c] + tail && !NeedsQuotes([c] + tail)
    ensures '\r' !in tail && !NeedsQuotes(tail) && c != ',' && c != '\n' && c != '"' && c != '\r'
  {
    assert c in [c] + tail;
    assert forall d :: d in tail ==> d in [c] + tail;
  }

  lemma FirstBare(c: char, rest: string, row: Row)
    requires c != ',' && c != '\n' && c != '"' && c != '\r'
    ensures Read([c] + rest, Reader(Start, "", row)) == Read(rest, Reader(Bare, [c], row))
  {
    ReadOne(c, rest, Reader(Start, "", row));
    assert "" + [c] == [c];
  }

  /** What is read once a record is complete. */
  ghost function AfterRow(row: Row, rest: string): Option<seq<Row>> {
    if rest == "" then Some([row]) else AddRow(row, Parse(rest[1..]))
  }

  /** Reading a printed line gives the row back; `done` are the fields before it. */
  lemma {:induction false} ReadLine(row: Row, rest: string, done: Row)
    requires row != [] && (rest == "" || rest[0] == '\n') && (rest == "" && row == [""] ==> done != [])
    requires forall j :: 0 <= j < |row| ==> '\r' !in row[j]
    ensures Read(Line(row) + rest, Reader(Start, "", done)) == AfterRow(done + row, rest)
  {
    if |row| == 1 {
      ReadCell(row[0], rest, done);
      assert done + [row[0]] == done + row;
    } else {
      ReadLine(row[1..], rest, done + [row[0]]);
      FirstOfLine(row[0], Line(row[1..]) + rest, done);
      LineCons(row[0], row[1..], rest, done);
      assert [row[0]] + row[1..] == row;
    }
  }

  lemma LineCons(first: string, others: Row, rest: string, done: Row)
    requires others != []
    ensures Line([first] + others) + rest == Cell(first) + ([','] + (Line(others) + rest))
    ensures done + [first] + others == done + ([first] + others)
  {
    assert ([first] + others)[1..] == others;
  }

  lemma FirstOfLine(first: string, more: string, done: Row)
    requires '\r' !in first
    ensures Read(Cell(first) + ([','] + more), Reader(Start, "", done)) == Read(more, Reader(Start, "", done + [first]))
  {
    ReadCell(first, [','] + more, done);
    AfterComma(first, done, more);
  }

  lemma AfterComma(text: string, row: Row, more: string)
    ensures AfterField(text, row, [','] + more) == Read(more, Reader(Start, "", row + [text]))
  {
    assert ([','] + more)[1..] == more;
  }

  /** Parsing printed rows gives the rows back, except that a last row consisting of one
      empty cell is taken for the optional final line break. */
  lemma {:induction false} ParsePrint(rows: seq<Row>)
    requires NoReturns(rows) && (forall i :: 0 <= i < |rows| ==> rows[i] != [])
    ensures Parse(Print(rows)) == if rows != [] && rows[|rows|-1] == [""] then Some(rows[..|rows|-1]) else Some(rows)
  {
    if |rows| == 1 {
      assert Print(rows) == Line(rows[0]) + "";
      if rows[0] == [""] {
        assert Print(rows) == "" && rows[..0] == [];
      } else {
        ReadLine(rows[0], "", []);
        assert [] + rows[0] == rows[0] && [rows[0]] == rows;
      }
    } else if |rows| > 1 {
      var first, others := rows[0], rows[1..];
      var rest := "\n" + Print(others);
      assert Print(rows) == Line(first) + rest;
      ReadLine(first, rest, []);
      assert rest[1..] == Print(others) && [] + first == first;
      assert NoReturns(others) by {
        forall i, j | 0 <= i < |others| && 0 <= j < |others[i]| ensures '\r' !in others[i][j] {
          assert others[i] == rows[i+1];
        }
      }
      ParsePrint(others);
      assert [first] + others == rows && [first] + others[..|others|-1] == rows[..|rows|-1];
    }
  }

  lemma {:induction false} ReadRowsNonEmpty(s: string, r: Reader)
    requires Read(s, r).Some?
    ensures forall i :: 0 <= i < |Read(s, r).value| ==> Read(s, r).value[i] != []
  {
    if s != "" {
      match Next(s[0], r)
      case Continue(r') => ReadRowsNonEmpty(s[1..], r');
      case EndRecord(row) => ReadRowsNonEmpty(s[1..], FRESH);
      case Fail =>
    }
  }

  /** Exactly which rows survive printing: none may be empty, and the last may not be a
      single empty cell. */
  lemma ParsePrintIff(rows: seq<Row>)
    requires NoReturns(rows)
    ensures Parse(Print(rows)) == Some(rows) <==>
            (forall i :: 0 <= i < |rows| ==> rows[i] != []) && (rows != [] ==> rows[|rows|-1] != [""])
  {
    if forall i :: 0 <= i < |rows| ==> rows[i] != [] {
      ParsePrint(rows);
    } else if Parse(Print(rows)).Some? {
      ReadRowsNonEmpty(Print(rows), FRESH);
    }
  }

  // --------------------------------------------------------- the best sample

  const HEADER_SEARCH_ROWS := 40
  const MAX_SAMPLE_ROWS := 2000

  datatype Sample = Sample(score: int, headerIndex: nat, rows: seq<Row>)

  function TextCells(row: Row): (r: Row)
    ensures |r| > 0 ==> exists i :: 0 <= i < |row| && row[i] != ""
  {
    if row == [] then []
    else if row[0] == "" then TextCells(row[1..])
    else [row[0]] + TextCells(row[1..])
  }

  /** `headerRowScore`: nothing for fewer than two cells with text; `rate` stands for the
      alias, text and number counts. */
  function HeaderScore(row: Row, rate: Row -> int): int {
    if |TextCells(row)| < 2 then 0 else rate(TextCells(row))
  }

  predicate HasText(row: Row) {
    exists i :: 0 <= i < |row| && Clean(row[i]) != ""
  }

  /** The normalized data rows with text. */
  function DataRows(rows: seq<Row>): seq<Row> {
    if rows == [] then []
    else if HasText(Normalize(rows[0])) then [Normalize(rows[0])] + DataRows(rows[1..])
    else DataRows(rows[1..])
  }

  function NonEmptyRows(rows: seq<Row>): seq<Row> {
    if rows == [] then []
    else if rows[0] == [] then NonEmptyRows(rows[1..])
    else [rows[0]] + NonEmptyRows(rows[1..])
  }

  /** The header row at `index` and the data rows below it. */
  function SampleRows(rows: seq<Row>, index: nat): seq<Row>
    requires index < |rows|
  {
    var below := rows[index+1..Least(|rows|, index + 1 + MAX_SAMPLE_ROWS)];
    NonEmptyRows([Normalize(rows[index])] + DataRows(below))
  }

  /** `best` is the first row with the highest positive score among the first `n`. */
  ghost predicate BestOf(score: int -> int, sample: int -> seq<Row>, n: nat, best: Sample) {
    && best.score >= 0
    && (forall i :: 0 <= i < n ==> score(i) <= best.score)
    && (best.score == 0 ==> best.headerIndex == 0 && best.rows == [])
    && (best.score > 0 ==>
          && best.headerIndex < n
          && score(best.headerIndex) == best.score
          && (forall i :: 0 <= i < best.headerIndex ==> score(i) < best.score)
          && best.rows == sample(best.headerIndex))
  }

  ghost function Scores(rows: seq<Row>, rate: Row -> int): int -> int {
    i => if 0 <= i < |rows| then HeaderScore(Normalize(rows[i]), rate) else 0
  }

  ghost function Samples(rows: seq<Row>): int -> seq<Row> {
    i => if 0 <= i < |rows| then SampleRows(rows, i) else []
  }

  /** `bestSheetSample`, and the promise its caller relies on: the sample printed as CSV is
      read back as exactly the same rows. */
  method BestSheetSample(rows: seq<Row>, rate: Row -> int) returns (best: Sample)
    ensures BestOf(Scores(rows, rate), Samples(rows), Least(|rows|, HEADER_SEARCH_ROWS), best)
    ensures Parse(Print(best.rows)) == Some(best.rows)
  {
    best := Sample(0, 0, []);
    for index := 0 to Least(|rows|, HEADER_SEARCH_ROWS)
      invariant BestOf(Scores(rows, rate), Samples(rows), index, best)
    {
      var normalized := Normalize(rows[index]);
      var score := HeaderScore(normalized, rate);
      BestStep(Scores(rows, rate), Samples(rows), index, best);
      if score > best.score {
        best := Sample(score, index, SampleRows(rows, index));
      }
    }
    BestReadsBack(rows, rate, best);
  }

  lemma BestStep(score: int -> int, sample: int -> seq<Row>, n: nat, best: Sample)
    requires BestOf(score, sample, n, best)
    ensures BestOf(score, sample, n + 1, if score(n) > best.score then Sample(score(n), n, sample(n)) else best)
  {
  }

  lemma BestReadsBack(rows: seq<Row>, rate: Row -> int, best: Sample)
    requires BestOf(Scores(rows, rate), Samples(rows), Least(|rows|, HEADER_SEARCH_ROWS), best)
    ensures Parse(Print(best.rows)) == Some(best.rows)
  {
    if best.score > 0 { SamplesReadBack(rows, best.headerIndex, rate); }
  }

  /** A row that a CSV reader returns as it was printed. */
  ghost predicate Printable(row: Row) {
    row != [] && row != [""] && forall j :: 0 <= j < |row| ==> '\r' !in row[j]
  }

  ghost predicate AllPrintable(rows: seq<Row>) {
    forall i :: 0 <= i < |rows| ==> Printable(rows[i])
  }

  lemma PrintableReadBack(rows: seq<Row>)
    requires AllPrintable(rows)
    ensures Parse(Print(rows)) == Some(rows)
  {
    ParsePrint(rows);
  }

  lemma {:induction false} NothingFiltered(rows: seq<Row>)
    requires AllPrintable(rows)
    ensures NonEmptyRows(rows) == rows
  {
    if rows != [] {
      assert Printable(rows[0]);
      NothingFiltered(rows[1..]);
    }
  }

  lemma TidyHasNoReturn(s: string)
    requires Tidy(s)
    ensures '\r' !in s
  {
  }

  lemma NormalizedIsPrintable(row: Row)
    requires HasText(Normalize(row))
    ensures Printable(Normalize(row))
  {
    forall j | 0 <= j < |Normalize(row)| ensures '\r' !in Normalize(row)[j] {
      CleanIsTidy(row[j]);
      TidyHasNoReturn(Clean(row[j]));
    }
    CleanKeepsTidy("");
  }

  lemma {:induction false} DataRowsPrintable(rows: seq<Row>)
    ensures AllPrintable(DataRows(rows))
  {
    if rows != [] {
      DataRowsPrintable(rows[1..]);
      if HasText(Normalize(rows[0])) { NormalizedIsPrintable(rows[0]); }
    }
  }

  lemma SamplesReadBack(rows: seq<Row>, index: nat, rate: Row -> int)
    requires index < |rows| && HeaderScore(Normalize(rows[index]), rate) > 0
    ensures Parse(Print(SampleRows(rows, index))) == Some(SampleRows(rows, index))
  {
    var below := rows[index+1..Least(|rows|, index + 1 + MAX_SAMPLE_ROWS)];
    HeaderHasText(rows[index], rate);
    NormalizedIsPrintable(rows[index]);
    DataRowsPrintable(below);
    NothingFiltered([Normalize(rows[index])] + DataRows(below));
    PrintableReadBack(SampleRows(rows, index));
  }

  lemma HeaderHasText(row: Row, rate: Row -> int)
    requires HeaderScore(Normalize(row), rate) > 0
    ensures HasText(Normalize(row))
  {
    var i :| 0 <= i < |Normalize(row)| && Normalize(row)[i] != "";
    CleanIsTidy(row[i]);
    CleanKeepsTidy(Normalize(row)[i]);
  }
}
