/**
  The comparison answer `Feature | A | B`, a dash separator line and
  `Speed | Fast | Slow`, worked through the parser line by line: spaces around
  cells are stripped and the separator line contributes no row.
 */
module TableExample {
  import opened Wrappers
  import opened Text
  import opened TableParser

  /** The header cells, stripped. */
  lemma HeaderStrips()
    ensures Strip("Feature ") == "Feature" && Strip(" A ") == "A" && Strip(" B") == "B"
  {
    StripSurrounded("", "Feature", " ");
    assert "" + "Feature" + " " == "Feature ";
    StripSurrounded(" ", "A", " ");
    assert " " + "A" + " " == " A ";
    StripSurrounded(" ", "B", "");
    assert " " + "B" + "" == " B";
  }

  /** Stripping the header pieces leaves three non-empty cells. */
  lemma HeaderCells()
    ensures Cells(["Feature ", " A ", " B"]) == ["Feature", "A", "B"]
  {
    HeaderStrips();
  }

  /** No header piece holds a pipe. */
  lemma HeaderPiecesNoPipe()
    ensures '|' !in "Feature " && '|' !in " A " && '|' !in " B"
  {
    assert forall i :: 0 <= i < |"Feature "| ==> "Feature "[i] in "Featur ";
  }

  /** The header line splits at its two pipes. */
  lemma HeaderPieces()
    ensures Split("Feature | A | B", '|') == ["Feature ", " A ", " B"]
  {
    HeaderPiecesNoPipe();
    SplitWithout(" B", '|');
    SplitAfter(" A ", " B", '|');
    SplitAfter("Feature ", " A " + ['|'] + " B", '|');
    HeaderLineText();
  }

  /** The header line, written around its pipes. */
  lemma HeaderLineText()
    ensures "Feature " + ['|'] + (" A " + ['|'] + " B") == "Feature | A | B"
  {
  }

  /** A cell starting with a character other than `-`, `:` or whitespace is not a separator cell. */
  lemma NotSeparator(cell: string)
    requires |cell| > 0 && cell[0] != '-' && cell[0] != ':' && !IsSpace(cell[0])
    ensures !IsSeparatorCell(cell)
  {
    SeparatorCellIff(cell);
  }

  /** The header line has no edge whitespace. */
  lemma HeaderLineClean()
    ensures Strip("Feature | A | B") == "Feature | A | B"
  {
    var line := "Feature | A | B";
    assert !IsSpace(line[0]) && !IsSpace(line[|line| - 1]);
    StripTrimmed(line);
  }

  /** The header line holds a pipe. */
  lemma HeaderLinePipe()
    ensures '|' in "Feature | A | B"
  {
    assert "Feature | A | B"[8] == '|';
  }

  /** The header line contributes the row Feature, A, B. */
  lemma HeaderRow()
    ensures RowOf("Feature | A | B") == Some(["Feature", "A", "B"])
  {
    HeaderLineClean();
    HeaderLinePipe();
    HeaderPieces();
    HeaderCells();
    NotSeparator("Feature");
    var cells := ["Feature", "A", "B"];
    assert !IsSeparatorCell(cells[0]);
  }

  /** The data cells, stripped. */
  lemma DataStrips()
    ensures Strip("Speed ") == "Speed" && Strip(" Fast ") == "Fast" && Strip(" Slow") == "Slow"
  {
    StripSurrounded("", "Speed", " ");
    assert "" + "Speed" + " " == "Speed ";
    StripSurrounded(" ", "Fast", " ");
    assert " " + "Fast" + " " == " Fast ";
    StripSurrounded(" ", "Slow", "");
    assert " " + "Slow" + "" == " Slow";
  }

  /** Stripping the data pieces leaves three non-empty cells. */
  lemma DataCells()
    ensures Cells(["Speed ", " Fast ", " Slow"]) == ["Speed", "Fast", "Slow"]
  {
    DataStrips();
  }

  /** No data piece holds a pipe. */
  lemma DataPiecesNoPipe()
    ensures '|' !in "Speed " && '|' !in " Fast " && '|' !in " Slow"
  {
    assert forall i :: 0 <= i < |"Speed "| ==> "Speed "[i] in "Sped ";
    assert forall i :: 0 <= i < |" Fast "| ==> " Fast "[i] in "Fast ";
    assert forall i :: 0 <= i < |" Slow"| ==> " Slow"[i] in "Slow ";
  }

  /** The data line splits at its two pipes. */
  lemma DataPieces()
    ensures Split("Speed | Fast | Slow", '|') == ["Speed ", " Fast ", " Slow"]
  {
    DataPiecesNoPipe();
    SplitWithout(" Slow", '|');
    SplitAfter(" Fast ", " Slow", '|');
    SplitAfter("Speed ", " Fast " + ['|'] + " Slow", '|');
    DataLineText();
  }

  /** The data line, written around its pipes. */
  lemma DataLineText()
    ensures "Speed " + ['|'] + (" Fast " + ['|'] + " Slow") == "Speed | Fast | Slow"
  {
  }

  /** The data line has no edge whitespace. */
  lemma DataLineClean()
    ensures Strip("Speed | Fast | Slow") == "Speed | Fast | Slow"
  {
    var line := "Speed | Fast | Slow";
    assert !IsSpace(line[0]) && !IsSpace(line[|line| - 1]);
    StripTrimmed(line);
  }

  /** The data line holds a pipe. */
  lemma DataLinePipe()
    ensures '|' in "Speed | Fast | Slow"
  {
    assert "Speed | Fast | Slow"[6] == '|';
  }

  /** The data line contributes the row Speed, Fast, Slow. */
  lemma DataRow()
    ensures RowOf("Speed | Fast | Slow") == Some(["Speed", "Fast", "Slow"])
  {
    DataLineClean();
    DataLinePipe();
    DataPieces();
    DataCells();
    NotSeparator("Speed");
    var cells := ["Speed", "Fast", "Slow"];
    assert !IsSeparatorCell(cells[0]);
  }

  /** `---` is its own stripped form and a separator cell. */
  lemma DashCell()
    ensures Strip("---") == "---" && IsSeparatorCell("---")
  {
    assert !IsSpace('-');
    StripTrimmed("---");
    SeparatorCellIff("---");
  }

  /** The dash line splits into three dash pieces. */
  lemma DashPieces()
    ensures Split("---|---|---", '|') == ["---", "---", "---"]
  {
    SplitWithout("---", '|');
    SplitAfter("---", "---", '|');
    SplitAfter("---", "---" + ['|'] + "---", '|');
    DashLineText();
  }

  /** The dash line, written around its pipes. */
  lemma DashLineText()
    ensures "---" + ['|'] + ("---" + ['|'] + "---") == "---|---|---"
  {
  }

  /** The dash line has no edge whitespace. */
  lemma DashLineClean()
    ensures Strip("---|---|---") == "---|---|---"
  {
    var line := "---|---|---";
    assert !IsSpace(line[0]) && !IsSpace(line[|line| - 1]);
    StripTrimmed(line);
  }

  /** The dash line holds a pipe. */
  lemma DashLinePipe()
    ensures '|' in "---|---|---"
  {
    assert "---|---|---"[3] == '|';
  }

  /** The dash line is a separator row and contributes nothing. */
  lemma DashRow()
    ensures RowOf("---|---|---") == None
  {
    DashLineClean();
    DashLinePipe();
    DashPieces();
    DashCell();
    var cells := ["---", "---", "---"];
    assert Cells(cells) == cells;
    assert IsSeparatorRow(cells);
  }

  /** The answer is its three lines joined by line breaks. */
  lemma ExampleText()
    ensures "Feature | A | B\n---|---|---\nSpeed | Fast | Slow"
         == "Feature | A | B" + ['\n'] + ("---|---|---" + ['\n'] + "Speed | Fast | Slow")
  {
  }

  /** The answer has no edge whitespace. */
  lemma ExampleClean()
    ensures var text := "Feature | A | B" + ['\n'] + ("---|---|---" + ['\n'] + "Speed | Fast | Slow");
      Strip(text) == text
  {
    var h, d, b := "Feature | A | B", "---|---|---", "Speed | Fast | Slow";
    var text := h + ['\n'] + (d + ['\n'] + b);
    assert text[0] == h[0];
    assert text[|text| - 1] == b[|b| - 1];
    assert !IsSpace(text[0]) && !IsSpace(text[|text| - 1]);
    StripTrimmed(text);
  }

  /** None of the three lines holds a line break. */
  lemma NoBreaks()
    ensures '\n' !in "Feature | A | B" && '\n' !in "---|---|---" && '\n' !in "Speed | Fast | Slow"
  {
    assert forall i :: 0 <= i < |"Feature | A | B"| ==> "Feature | A | B"[i] in "FeaturAB |";
    assert forall i :: 0 <= i < |"---|---|---"| ==> "---|---|---"[i] in "-|";
    assert forall i :: 0 <= i < |"Speed | Fast | Slow"| ==> "Speed | Fast | Slow"[i] in "SpedFastlow |";
  }

  /** Splitting the joined lines gives them back. */
  lemma SplitExampleLines()
    ensures Split("Feature | A | B" + ['\n'] + ("---|---|---" + ['\n'] + "Speed | Fast | Slow"), '\n')
         == ["Feature | A | B", "---|---|---", "Speed | Fast | Slow"]
  {
    NoBreaks();
    SplitWithout("Speed | Fast | Slow", '\n');
    SplitAfter("---|---|---", "Speed | Fast | Slow", '\n');
    SplitAfter("Feature | A | B", "---|---|---" + ['\n'] + "Speed | Fast | Slow", '\n');
  }

  /** The answer's lines, after `strip()` and `split('\\n')`. */
  lemma ExampleLines()
    ensures Split(Strip("Feature | A | B\n---|---|---\nSpeed | Fast | Slow"), '\n')
         == ["Feature | A | B", "---|---|---", "Speed | Fast | Slow"]
  {
    ExampleText();
    ExampleClean();
    SplitExampleLines();
  }

  /** Rows of one line. */
  lemma RowsOfOne(a: string)
    ensures Rows([a]) == Listed(RowOf(a))
  {
    RowsSnoc([], a);
    assert [] + [a] == [a];
  }

  /** Rows of two lines. */
  lemma RowsOfTwo(a: string, b: string)
    ensures Rows([a, b]) == Listed(RowOf(a)) + Listed(RowOf(b))
  {
    RowsOfOne(a);
    RowsSnoc([a], b);
    assert [a] + [b] == [a, b];
  }

  /** Rows of three lines: each line's row, if any, in order. */
  lemma RowsOfThree(a: string, b: string, c: string)
    ensures Rows([a, b, c]) == Listed(RowOf(a)) + Listed(RowOf(b)) + Listed(RowOf(c))
  {
    RowsOfTwo(a, b);
    RowsSnoc([a, b], c);
    assert [a, b] + [c] == [a, b, c];
  }

  /** The three lines contribute the header row and the data row. */
  lemma ExampleRows()
    ensures Rows(["Feature | A | B", "---|---|---", "Speed | Fast | Slow"]) == [["Feature", "A", "B"], ["Speed", "Fast", "Slow"]]
  {
    RowsOfThree("Feature | A | B", "---|---|---", "Speed | Fast | Slow");
    HeaderRow();
    DashRow();
    DataRow();
  }

  /** The answer parses to header Feature, A, B and the single data row Speed, Fast, Slow. */
  lemma ParseComparisonExample()
    ensures Parse("Feature | A | B\n---|---|---\nSpeed | Fast | Slow")
         == ParsedTable(Some(["Feature", "A", "B"]), [["Speed", "Fast", "Slow"]])
  {
    ExampleLines();
    ExampleRows();
  }
}
