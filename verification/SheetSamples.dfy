/** Sheet samples in the words of the workbook: the words of its cells, and which rows are kept. */
module SheetSamples {
  import opened Numbers
  import opened SheetCsv

  // ------------------------------------------------------------- cleaning

  /** The words of a text, when `word` has been read already. */
  function Words(s: string, word: string): seq<string> {
    if s == "" then Flushed(word)
    else if IsSpace(s[0]) then Flushed(word) + Words(s[1..], "")
    else Words(s[1..], word + [s[0]])
  }

  function Flushed(word: string): seq<string> {
    if word == "" then [] else [word]
  }

  lemma {:induction false} CollapseKeepsWords(s: string, inRun: bool, word: string)
    requires inRun ==> word == ""
    ensures Words(Collapse(s, inRun), word) == Words(s, word)
  {
    if s != "" {
      if !IsSpace(s[0]) {
        CollapseKeepsWords(s[1..], false, word + [s[0]]);
      } else {
        CollapseKeepsWords(s[1..], true, "");
      }
    }
  }

  lemma {:induction false} TrimStartKeepsWords(s: string)
    ensures Words(TrimStart(s), "") == Words(s, "")
  {
    if s != "" && IsSpace(s[0]) { TrimStartKeepsWords(s[1..]); }
  }

  lemma {:induction false} LastSpace(s: string, c: char, word: string)
    requires IsSpace(c)
    ensures Words(s + [c], word) == Words(s, word)
  {
    if s != "" {
      assert (s + [c])[1..] == s[1..] + [c];
      LastSpace(s[1..], c, if IsSpace(s[0]) then "" else word + [s[0]]);
    }
  }

  lemma {:induction false} TrimEndKeepsWords(s: string)
    ensures Words(TrimEnd(s), "") == Words(s, "")
  {
    if s != "" && IsSpace(s[|s|-1]) {
      TrimEndKeepsWords(s[..|s|-1]);
      LastSpace(s[..|s|-1], s[|s|-1], "");
      assert s == s[..|s|-1] + [s[|s|-1]];
    }
  }

  /** Cleaning changes no word: it gives the one text with single blanks that has the words of
      the given one. */
  lemma CleanKeepsWords(s: string)
    ensures Words(Clean(s), "") == Words(s, "") && Tidy(Clean(s))
  {
    CleanIsTidy(s);
    CollapseKeepsWords(s, false, "");
    TrimStartKeepsWords(Collapse(s, false));
    TrimEndKeepsWords(TrimStart(Collapse(s, false)));
  }

  /** White space as JavaScript knows it, by code point. */
  lemma SpaceCodes(c: char)
    ensures IsSpace(c) <==>
              || 9 <= c as int <= 13 || c as int == 32 || c as int == 160 || c as int == 0x1680
              || 0x2000 <= c as int <= 0x200a || c as int == 0x2028 || c as int == 0x2029 || c as int == 0x202f
              || c as int == 0x205f || c as int == 0x3000 || c as int == 0xfeff
  {
  }

  // ------------------------------------------------------------- the rows

  /** A cell has a word in it. */
  predicate HasWord(cell: string) {
    Words(cell, "") != []
  }

  lemma CleanIffWord(cell: string)
    ensures Clean(cell) != "" <==> HasWord(cell)
  {
    CleanKeepsWords(cell);
    var t := Clean(cell);
    if t != "" {
      assert !IsSpace(t[0]) by { CleanIsTidy(cell); }
      assert "" + [t[0]] == [t[0]];
      SomeWord(t[1..], [t[0]]);
    }
  }

  lemma {:induction false} SomeWord(s: string, word: string)
    requires word != ""
    ensures Words(s, word) != []
  {
    if s != "" && !IsSpace(s[0]) { SomeWord(s[1..], word + [s[0]]); }
  }

  /** A row ends with its last cell that has a word, and after 80 cells. */
  lemma RowCells(row: Row)
    ensures |Normalize(row)| <= 80 && |Normalize(row)| <= |row|
    ensures forall i :: 0 <= i < |Normalize(row)| ==> Normalize(row)[i] == Clean(row[i])
    ensures 0 < |Normalize(row)| < 80 ==> HasWord(row[|Normalize(row)|-1])
    ensures |Normalize(row)| < 80 ==> forall i :: |Normalize(row)| <= i < |row| ==> !HasWord(row[i])
  {
    var n := |Normalize(row)|;
    if 0 < n < 80 { CleanIffWord(row[n-1]); }
    forall i | n <= i < |row| && n < 80 ensures !HasWord(row[i]) { CleanIffWord(row[i]); }
  }

  /** A data row is kept if and only if one of its first 80 cells has a word. */
  predicate Kept(row: Row) {
    exists i :: 0 <= i < |row| && i < 80 && HasWord(row[i])
  }

  lemma KeptIff(row: Row)
    ensures HasText(Normalize(row)) <==> Kept(row)
  {
    var n := Normalize(row);
    RowCells(row);
    forall i | 0 <= i < |n| ensures Clean(n[i]) != "" <==> HasWord(row[i]) {
      CleanIsTidy(row[i]);
      CleanKeepsTidy(n[i]);
      CleanIffWord(row[i]);
    }
  }

  /** The data rows of a sample: of the rows below the header the kept ones, cleaned, in order. */
  lemma {:induction false} DataRowsSnoc(rows: seq<Row>, row: Row)
    ensures DataRows([]) == []
    ensures DataRows(rows + [row]) == DataRows(rows) + if Kept(row) then [Normalize(row)] else []
  {
    KeptIff(row);
    if rows != [] {
      assert (rows + [row])[1..] == rows[1..] + [row];
      DataRowsSnoc(rows[1..], row);
    } else {
      assert ([] + [row])[1..] == [];
    }
  }

  // ---------------------------------------------------------- the sample

  /** At least two cells of a row have text. */
  predicate TwoCells(row: Row) {
    exists i, j :: 0 <= i < j < |row| && row[i] != "" && row[j] != ""
  }

  lemma {:induction false} CountText(row: Row)
    ensures |TextCells(row)| >= 1 <==> exists i :: 0 <= i < |row| && row[i] != ""
    ensures |TextCells(row)| >= 2 <==> TwoCells(row)
  {
    if row != [] {
      var rest := row[1..];
      CountText(rest);
      assert forall i :: 0 < i < |row| ==> row[i] == rest[i-1];
      if i :| 0 <= i < |rest| && rest[i] != "" { assert row[i+1] != ""; }
      if TwoCells(rest) {
        var i, j :| 0 <= i < j < |rest| && rest[i] != "" && rest[j] != "";
        assert row[i+1] != "" && row[j+1] != "";
      }
    }
  }

  /** The rating counts only for a row with two cells of text, and is asked about these cells. */
  lemma ScoreOf(row: Row, rate: Row -> int)
    ensures HeaderScore(row, rate) == if TwoCells(row) then rate(TextCells(row)) else 0
  {
    CountText(row);
  }

  lemma {:induction false} TextCellsSnoc(row: Row, cell: string)
    ensures TextCells([]) == []
    ensures TextCells(row + [cell]) == TextCells(row) + if cell != "" then [cell] else []
  {
    if row != [] {
      assert (row + [cell])[1..] == row[1..] + [cell];
      TextCellsSnoc(row[1..], cell);
    } else {
      assert ([] + [cell])[1..] == [];
    }
  }

  /** What the best sample is: for the first row with the highest positive score among the first
      40, that row, cleaned, and below it the kept ones of the next 2000 rows; and nothing where no
      score is positive. */
  lemma BestSample(rows: seq<Row>, rate: Row -> int, best: Sample, h: nat)
    requires BestOf(Scores(rows, rate), Samples(rows), Least(|rows|, HEADER_SEARCH_ROWS), best)
    requires h < |rows| && h < 40 && HeaderScore(Normalize(rows[h]), rate) > 0
    requires forall i :: 0 <= i < h ==> HeaderScore(Normalize(rows[i]), rate) < HeaderScore(Normalize(rows[h]), rate)
    requires forall i :: h < i < |rows| && i < 40 ==>
               HeaderScore(Normalize(rows[i]), rate) <= HeaderScore(Normalize(rows[h]), rate)
    ensures best.headerIndex == h && best.score == HeaderScore(Normalize(rows[h]), rate)
    ensures var end := if h + 2001 < |rows| then h + 2001 else |rows|;
            best.rows == [Normalize(rows[h])] + DataRows(rows[h+1..end])
  {
    FirstBest(Scores(rows, rate), Samples(rows), Least(|rows|, HEADER_SEARCH_ROWS), best, h);
    RowsBelow(rows, rate, h);
  }

  lemma FirstBest(score: int -> int, sample: int -> seq<Row>, n: nat, best: Sample, h: nat)
    requires BestOf(score, sample, n, best) && h < n && score(h) > 0
    requires forall i :: 0 <= i < h ==> score(i) < score(h)
    requires forall i :: h < i < n ==> score(i) <= score(h)
    ensures best.headerIndex == h && best.score == score(h) && best.rows == sample(h)
  {
  }

  lemma RowsBelow(rows: seq<Row>, rate: Row -> int, h: nat)
    requires h < |rows| && HeaderScore(Normalize(rows[h]), rate) > 0
    ensures var end := if h + 2001 < |rows| then h + 2001 else |rows|;
            SampleRows(rows, h) == [Normalize(rows[h])] + DataRows(rows[h+1..end])
  {
    var below := rows[h+1..Least(|rows|, h + 1 + MAX_SAMPLE_ROWS)];
    HeaderHasText(rows[h], rate);
    NormalizedIsPrintable(rows[h]);
    DataRowsPrintable(below);
    NothingFiltered([Normalize(rows[h])] + DataRows(below));
  }

  lemma NoSample(rows: seq<Row>, rate: Row -> int, best: Sample)
    requires BestOf(Scores(rows, rate), Samples(rows), Least(|rows|, HEADER_SEARCH_ROWS), best)
    requires forall i :: 0 <= i < |rows| && i < 40 ==> HeaderScore(Normalize(rows[i]), rate) <= 0
    ensures best.score == 0 && best.rows == []
  {
    assert forall i :: 0 <= i < |rows| ==> Scores(rows, rate)(i) == HeaderScore(Normalize(rows[i]), rate);
  }

  // ---------------------------------------------------------- quoting

  /** Exactly the cells without a quote, a comma or a line break are printed as they are. */
  lemma PrintedAsIs(text: string)
    ensures Cell(text) == text <==> !exists i :: 0 <= i < |text| && text[i] in {'\"', ',', '\n'}
  {
    QuotesGrow(text);
    assert NeedsQuotes(text) ==> |Cell(text)| == |DoubleQuotes(text)| + 2;
  }

  lemma {:induction false} QuotesGrow(text: string)
    ensures |DoubleQuotes(text)| >= |text|
  {
    if text != "" { QuotesGrow(text[1..]); }
  }

  lemma JoinLast(a: string, b: string, c: string, separator: string)
    ensures a + separator + (b + separator + c) == (a + separator + b) + separator + c
  {
  }

  lemma PrintCons(first: Row, rest: seq<Row>)
    requires rest != []
    ensures Print([first]) == Line(first) && Print([first] + rest) == Line(first) + "\n" + Print(rest)
  {
    assert ([first] + rest)[1..] == rest;
  }

  /** Lines are joined by single line breaks, and nothing follows. */
  lemma {:induction false} LinesJoined(rows: seq<Row>, row: Row)
    requires rows != []
    ensures Print([row]) == Line(row)
    ensures Print(rows + [row]) == Print(rows) + "\n" + Line(row)
  {
    var first, rest := rows[0], rows[1..];
    assert rows == [first] + rest;
    PrintCons(first, [row]);
    if rest != [] {
      LinesJoined(rest, row);
      assert rows + [row] == [first] + (rest + [row]);
      PrintCons(first, rest);
      PrintCons(first, rest + [row]);
      JoinLast(Line(first), Print(rest), Line(row), "\n");
    } else {
      PrintCons(row, [row]);
    }
  }

  lemma CellCons(first: string, rest: Row)
    requires rest != []
    ensures Line([first]) == Cell(first) && Line([first] + rest) == Cell(first) + "," + Line(rest)
  {
    assert ([first] + rest)[1..] == rest;
  }

  /** And so are cells by single commas. */
  lemma {:induction false} CellsJoined(row: Row, cell: string)
    requires row != []
    ensures Line([]) == "" && Line([cell]) == Cell(cell)
    ensures Line(row + [cell]) == Line(row) + "," + Cell(cell)
  {
    var first, rest := row[0], row[1..];
    assert row == [first] + rest;
    CellCons(first, [cell]);
    if rest != [] {
      CellsJoined(rest, cell);
      assert row + [cell] == [first] + (rest + [cell]);
      CellCons(first, rest);
      CellCons(first, rest + [cell]);
      JoinLast(Cell(first), Line(rest), Cell(cell), ",");
    } else {
      CellCons(cell, [cell]);
    }
  }
}
