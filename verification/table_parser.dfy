/**
  `ResponseFormatter.parse_markdown_table`: scans an answer line by line for
  `|`-delimited rows. The first row that survives becomes the header and every
  later one a data row; separator rows made of `-`, `:` and whitespace are
  skipped, and so is every empty cell.
 */
module TableParser {
  import opened Wrappers
  import opened Text

  /** What the parser returns: the header, if any, and the data rows in input order. */
  datatype ParsedTable = ParsedTable(header: Option<seq<string>>, body: seq<seq<string>>)

  /** Python's `cell.replace(x, '')`. */
  function Remove(s: string, x: char): (r: string)
    ensures |r| <= |s|
  {
    if |s| == 0 then ""
    else (if s[0] == x then "" else [s[0]]) + Remove(s[1..], x)
  }

  /** `replace(x, '')` keeps exactly the characters other than `x`. */
  lemma {:induction false} RemoveIff(s: string, x: char)
    ensures forall c :: c in Remove(s, x) <==> c in s && c != x
  {
    if |s| > 0 {
      RemoveIff(s[1..], x);
      assert forall c :: c in s <==> c == s[0] || c in s[1..];
    }
  }

  /** The cells of a split line: each piece stripped, the empty ones dropped. */
  function Cells(pieces: seq<string>): (cells: seq<string>)
    ensures |cells| <= |pieces|
    ensures forall i :: 0 <= i < |cells| ==> cells[i] != "" && Trimmed(cells[i])
  {
    if |pieces| == 0 then []
    else
      var c := Strip(pieces[0]);
      var rest := Cells(pieces[1..]);
      if c == "" then rest
      else
        assert forall i :: 1 <= i < |rest| + 1 ==> ([c] + rest)[i] == rest[i - 1];
        [c] + rest
  }

  /** The test applied to each cell of a separator row: nothing is left once dashes, colons and edge whitespace go. */
  predicate IsSeparatorCell(cell: string)
  {
    Strip(Remove(Remove(cell, '-'), ':')) == ""
  }

  /** Python's `all(...)` over the cells: every cell is a separator cell. */
  predicate IsSeparatorRow(cells: seq<string>)
  {
    |cells| == 0 || (IsSeparatorCell(cells[0]) && IsSeparatorRow(cells[1..]))
  }

  /** A separator row is one all of whose cells are separator cells. */
  lemma {:induction false} SeparatorRowIff(cells: seq<string>)
    ensures IsSeparatorRow(cells) <==> forall i :: 0 <= i < |cells| ==> IsSeparatorCell(cells[i])
  {
    if |cells| > 0 {
      SeparatorRowIff(cells[1..]);
      assert forall i :: 1 <= i < |cells| ==> cells[i] == cells[1..][i - 1];
    }
  }

  /** The row a single line contributes, if it contributes one. */
  function RowOf(line: string): (row: Option<seq<string>>)
    ensures row.Some? ==> |row.value| > 0 && !IsSeparatorRow(row.value)
    ensures row.Some? ==> forall i :: 0 <= i < |row.value| ==> row.value[i] != "" && Trimmed(row.value[i]) && '|' !in row.value[i]
  {
    var l := Strip(line);
    if l == "" || '|' !in l then None
    else
      var cells := Cells(Split(l, '|'));
      SplitAvoids(l, '|');
      CellsAvoid(Split(l, '|'), '|');
      if cells == [] || IsSeparatorRow(cells) then None else Some(cells)
  }

  /** The row a line contributes, as a list of zero or one rows. */
  function Listed(row: Option<seq<string>>): seq<seq<string>>
  {
    if row.Some? then [row.value] else []
  }

  /** The rows the lines contribute, in input order. */
  function Rows(lines: seq<string>): seq<seq<string>>
  {
    if |lines| == 0 then []
    else Rows(lines[..|lines| - 1]) + Listed(RowOf(lines[|lines| - 1]))
  }

  /** The first row is the header, the rest the data. */
  function TableOf(rows: seq<seq<string>>): (t: ParsedTable)
    ensures t.header.None? <==> rows == []
    ensures t.header.None? ==> t.body == []
    ensures t.header.Some? ==> [t.header.value] + t.body == rows
  {
    if rows == [] then ParsedTable(None, []) else ParsedTable(Some(rows[0]), rows[1..])
  }

  /** One more line at the end adds at most its own row to the rows. */
  lemma RowsSnoc(lines: seq<string>, l: string)
    ensures Rows(lines + [l]) == Rows(lines) + Listed(RowOf(l))
  {
    assert (lines + [l])[..|lines|] == lines;
  }

  /** One more row becomes the header of an empty table, or the last data row. */
  lemma TableOfSnoc(rows: seq<seq<string>>, r: seq<string>)
    ensures TableOf(rows + [r]) == if rows == [] then ParsedTable(Some(r), []) else ParsedTable(TableOf(rows).header, TableOf(rows).body + [r])
  {
    if rows != [] {
      assert (rows + [r])[1..] == rows[1..] + [r];
    }
  }

  /** The table `parse_markdown_table` finds in `text`. */
  function Parse(text: string): ParsedTable
  {
    TableOf(Rows(Split(Strip(text), '\n')))
  }

  /** The parser as the source writes it: one pass over the lines, updating the header and appending data rows. */
  method ParseMarkdownTable(text: string) returns (headers: Option<seq<string>>, data: seq<seq<string>>)
    ensures ParsedTable(headers, data) == Parse(text)
  {
    var lines := Split(Strip(text), '\n');
    headers := None;
    data := [];
    for i := 0 to |lines|
      invariant ParsedTable(headers, data) == TableOf(Rows(lines[..i]))
    {
      PrefixSnoc(lines, i);
      RowsSnoc(lines[..i], lines[i]);
      var line := Strip(lines[i]);
      if line == "" || '|' !in line {
        continue;
      }
      RowOfPiped(lines[i]);
      var cells := Cells(Split(line, '|'));
      if cells == [] {
        continue;
      }
      if IsSeparatorRow(cells) {
        continue;
      }
      TableOfSnoc(Rows(lines[..i]), cells);
      if headers.None? {
        headers := Some(cells);
      } else {
        data := data + [cells];
      }
    }
    assert lines[..|lines|] == lines;
  }

  /** One more piece adds its stripped form at the end, unless that is empty: the cells keep the pieces' order. */
  lemma {:induction false} CellsSnoc(pieces: seq<string>, p: string)
    ensures Cells(pieces + [p]) == Cells(pieces) + (if Strip(p) == "" then [] else [Strip(p)])
  {
    if |pieces| > 0 {
      assert (pieces + [p])[1..] == pieces[1..] + [p];
      CellsSnoc(pieces[1..], p);
    } else {
      assert [p][1..] == [];
    }
  }

  /** A cell is kept exactly when it is the non-empty stripped form of some piece. */
  lemma {:induction false} CellsMembers(pieces: seq<string>, c: string)
    ensures c in Cells(pieces) <==> exists j :: 0 <= j < |pieces| && c == Strip(pieces[j]) && c != ""
  {
    if |pieces| > 0 {
      var rest := pieces[1..];
      CellsMembers(rest, c);
      if c in Cells(rest) {
        var j :| 0 <= j < |rest| && c == Strip(rest[j]) && c != "";
        assert pieces[j + 1] == rest[j];
      }
      forall j | 0 <= j < |pieces| && c == Strip(pieces[j]) && c != "" ensures c in Cells(pieces) {
        if j > 0 {
          assert rest[j - 1] == pieces[j];
        }
      }
    }
  }

  /** A character absent from every piece is absent from every cell. */
  lemma {:induction false} CellsAvoid(pieces: seq<string>, x: char)
    requires forall i :: 0 <= i < |pieces| ==> x !in pieces[i]
    ensures forall i :: 0 <= i < |Cells(pieces)| ==> x !in Cells(pieces)[i]
  {
    if |pieces| > 0 {
      StripAvoids(pieces[0], x);
      var rest := pieces[1..];
      assert forall i :: 0 <= i < |rest| ==> rest[i] == pieces[i + 1];
      CellsAvoid(rest, x);
      var c := Strip(pieces[0]);
      if c != "" {
        assert Cells(pieces) == [c] + Cells(rest);
      }
    }
  }

  /**
    A line contributes a row exactly when its stripped form holds `|` and one
    of the pieces between the pipes strips to a non-empty cell that is not a
    separator cell; the row is then the cells of those pieces.
   */
  lemma RowOfIff(line: string)
    ensures RowOf(line).Some? <==>
      '|' in Strip(line)
      && (exists j :: 0 <= j < |Split(Strip(line), '|')| && Strip(Split(Strip(line), '|')[j]) != ""
                      && !IsSeparatorCell(Strip(Split(Strip(line), '|')[j])))
    ensures RowOf(line).Some? ==> RowOf(line).value == Cells(Split(Strip(line), '|'))
  {
    var l := Strip(line);
    if '|' in l {
      var pieces := Split(l, '|');
      var cells := Cells(pieces);
      RowOfPiped(line);
      SeparatorRowIff(cells);
      ContentCellIff(pieces);
    }
  }

  /** A line whose stripped form holds `|` gives its cells, unless they are none or a separator row. */
  lemma RowOfPiped(line: string)
    requires '|' in Strip(line)
    ensures var cells := Cells(Split(Strip(line), '|'));
      RowOf(line) == if cells == [] || IsSeparatorRow(cells) then None else Some(cells)
  {
  }

  /** Some cell is not a separator cell exactly when some piece strips to a non-empty, non-separator cell. */
  lemma ContentCellIff(pieces: seq<string>)
    ensures (exists k :: 0 <= k < |Cells(pieces)| && !IsSeparatorCell(Cells(pieces)[k])) <==>
      (exists j :: 0 <= j < |pieces| && Strip(pieces[j]) != "" && !IsSeparatorCell(Strip(pieces[j])))
  {
    var cells := Cells(pieces);
    if k :| 0 <= k < |cells| && !IsSeparatorCell(cells[k]) {
      assert cells[k] in cells;
      CellsMembers(pieces, cells[k]);
    }
    forall j | 0 <= j < |pieces| && Strip(pieces[j]) != "" && !IsSeparatorCell(Strip(pieces[j]))
      ensures exists k :: 0 <= k < |cells| && !IsSeparatorCell(cells[k])
    {
      CellsMembers(pieces, Strip(pieces[j]));
    }
  }

  /** A cell is a separator cell exactly when it holds nothing but `-`, `:` and whitespace. */
  lemma SeparatorCellIff(cell: string)
    ensures IsSeparatorCell(cell) <==> forall i :: 0 <= i < |cell| ==> cell[i] == '-' || cell[i] == ':' || IsSpace(cell[i])
  {
    var r := Remove(Remove(cell, '-'), ':');
    RemoveIff(cell, '-');
    RemoveIff(Remove(cell, '-'), ':');
    StripEmptyIff(r);
    if forall i :: 0 <= i < |cell| ==> cell[i] == '-' || cell[i] == ':' || IsSpace(cell[i]) {
      forall i | 0 <= i < |r| ensures IsSpace(r[i]) {
        assert r[i] in r;
      }
    }
    if IsSeparatorCell(cell) {
      forall i | 0 <= i < |cell| ensures cell[i] == '-' || cell[i] == ':' || IsSpace(cell[i]) {
        if cell[i] != '-' && cell[i] != ':' {
          assert cell[i] in cell;
          assert cell[i] in r;
          var k :| 0 <= k < |r| && r[k] == cell[i];
        }
      }
    }
  }

  /** A row is well formed when it is non-empty, no cell is empty, carries edge whitespace, `|` or a line break, and it is not a separator row. */
  predicate WellFormedRow(row: seq<string>)
  {
    |row| > 0 && !IsSeparatorRow(row)
    && forall i :: 0 <= i < |row| ==> row[i] != "" && Trimmed(row[i]) && '|' !in row[i] && '\n' !in row[i]
  }

  /** The row a line without line breaks contributes is well formed. */
  lemma RowOfWellFormed(line: string)
    requires '\n' !in line
    ensures RowOf(line).Some? ==> WellFormedRow(RowOf(line).value)
  {
    var l := Strip(line);
    if l != "" && '|' in l {
      StripAvoids(line, '\n');
      SplitChars(l, '|', '\n');
      CellsAvoid(Split(l, '|'), '\n');
    }
  }

  /** Every row the rows of some lines hold is well formed. */
  lemma {:induction false} RowsWellFormed(lines: seq<string>)
    requires forall i :: 0 <= i < |lines| ==> '\n' !in lines[i]
    ensures forall i :: 0 <= i < |Rows(lines)| ==> WellFormedRow(Rows(lines)[i])
  {
    if |lines| > 0 {
      var n := |lines| - 1;
      var prefix := lines[..n];
      assert forall i :: 0 <= i < |prefix| ==> prefix[i] == lines[i];
      RowsWellFormed(prefix);
      RowOfWellFormed(lines[n]);
    }
  }

  /** No header or data cell is empty, padded with whitespace, or holds `|`; no row is a separator row. */
  lemma ParseWellFormed(text: string)
    ensures Parse(text).header.Some? ==> WellFormedRow(Parse(text).header.value)
    ensures forall i :: 0 <= i < |Parse(text).body| ==> WellFormedRow(Parse(text).body[i])
  {
    var lines := Split(Strip(text), '\n');
    SplitAvoids(Strip(text), '\n');
    RowsWellFormed(lines);
    var rows := Rows(lines);
    if rows != [] {
      assert forall i :: 0 <= i < |rows[1..]| ==> rows[1..][i] == rows[i + 1];
    }
  }

  /** Rows of lines that contribute nothing are empty. */
  lemma {:induction false} RowsWithoutPipe(lines: seq<string>)
    requires forall i :: 0 <= i < |lines| ==> '|' !in lines[i]
    ensures Rows(lines) == []
  {
    if |lines| > 0 {
      var n := |lines| - 1;
      var prefix := lines[..n];
      assert forall i :: 0 <= i < |prefix| ==> prefix[i] == lines[i];
      RowsWithoutPipe(prefix);
      StripAvoids(lines[n], '|');
    }
  }

  /** Text with no `|` anywhere (the empty answer included) parses to no header and no data. */
  lemma ParsePlainText(text: string)
    requires '|' !in text
    ensures Parse(text) == ParsedTable(None, [])
  {
    StripAvoids(text, '|');
    SplitChars(Strip(text), '\n', '|');
    RowsWithoutPipe(Split(Strip(text), '\n'));
  }

  /** A parsed table as the parser can produce it: data only under a header, and every row well formed. */
  predicate ValidTable(t: ParsedTable)
  {
    (t.header.None? ==> t.body == [])
    && (t.header.Some? ==> WellFormedRow(t.header.value))
    && forall i :: 0 <= i < |t.body| ==> WellFormedRow(t.body[i])
  }

  /** Every parse result is a valid table. */
  lemma ParseValid(text: string)
    ensures ValidTable(Parse(text))
  {
    ParseWellFormed(text);
  }

  /** A row written back as markdown: `|a|b|c|`. */
  function RenderRow(row: seq<string>): string
  {
    "|" + Join(row, '|') + "|"
  }

  /** The header and data rows in order. */
  function AllRows(t: ParsedTable): seq<seq<string>>
  {
    if t.header.Some? then [t.header.value] + t.body else t.body
  }

  /** A table written back as markdown text, one row per line. */
  function Render(t: ParsedTable): string
  {
    Join(RenderLines(AllRows(t)), '\n')
  }

  /** Each row rendered on its own line. */
  function RenderLines(rows: seq<seq<string>>): (lines: seq<string>)
    ensures |lines| == |rows|
    ensures forall i :: 0 <= i < |rows| ==> lines[i] == RenderRow(rows[i])
  {
    if |rows| == 0 then [] else RenderLines(rows[..|rows| - 1]) + [RenderRow(rows[|rows| - 1])]
  }

  /** Joining onto a last part. */
  lemma {:induction false} JoinSnoc(parts: seq<string>, y: string, sep: char)
    requires |parts| >= 1
    ensures Join(parts + [y], sep) == Join(parts, sep) + [sep] + y
  {
    if |parts| > 1 {
      assert (parts + [y])[1..] == parts[1..] + [y];
      JoinSnoc(parts[1..], y, sep);
    }
  }

  /** A character absent from the parts and distinct from the separator is absent from the join. */
  lemma {:induction false} JoinAvoid(parts: seq<string>, sep: char, x: char)
    requires x != sep
    requires forall i :: 0 <= i < |parts| ==> x !in parts[i]
    ensures x !in Join(parts, sep)
  {
    if |parts| > 1 {
      var rest := parts[1..];
      assert forall i :: 0 <= i < |rest| ==> rest[i] == parts[i + 1];
      JoinAvoid(rest, sep, x);
    }
  }

  /** The first and last characters of a join of non-empty parts. */
  lemma {:induction false} JoinEnds(parts: seq<string>, sep: char)
    requires |parts| >= 1 && forall i :: 0 <= i < |parts| ==> parts[i] != []
    ensures |Join(parts, sep)| > 0
    ensures Join(parts, sep)[0] == parts[0][0]
    ensures Join(parts, sep)[|Join(parts, sep)| - 1] == parts[|parts| - 1][|parts[|parts| - 1]| - 1]
  {
    if |parts| > 1 {
      var rest := parts[1..];
      JoinEnds(rest, sep);
      assert rest[|rest| - 1] == parts[|parts| - 1];
      var j := Join(rest, sep);
      assert Join(parts, sep) == parts[0] + [sep] + j;
      assert (parts[0] + [sep] + j)[|parts[0]| + 1 + |j| - 1] == j[|j| - 1];
    }
  }

  /** Splitting a rendered row on `|` gives back its cells between two empty pieces. */
  lemma SplitRenderRow(row: seq<string>)
    requires |row| >= 1
    requires forall i :: 0 <= i < |row| ==> '|' !in row[i]
    ensures Split(RenderRow(row), '|') == [""] + row + [""]
  {
    var parts := [""] + row + [""];
    assert forall i :: 1 <= i <= |row| ==> parts[i] == row[i - 1];
    JoinSnoc([""] + row, "", '|');
    assert ([""] + row)[1..] == row;
    assert Join(parts, '|') == RenderRow(row);
    SplitJoin(parts, '|');
  }

  /** A first piece that is already a clean cell is the first cell. */
  lemma CellsCons(pieces: seq<string>)
    requires |pieces| > 0 && pieces[0] != "" && Trimmed(pieces[0])
    ensures Cells(pieces) == [pieces[0]] + Cells(pieces[1..])
  {
    StripTrimmed(pieces[0]);
  }

  /** Cells of a well-formed row framed by empty pieces are the row itself. */
  lemma {:induction false} CellsOfClean(row: seq<string>)
    requires forall i :: 0 <= i < |row| ==> row[i] != "" && Trimmed(row[i])
    ensures Cells(row) == row
  {
    if |row| > 0 {
      var rest := row[1..];
      assert forall i :: 0 <= i < |rest| ==> rest[i] == row[i + 1];
      CellsOfClean(rest);
      CellsCons(row);
      assert row == [row[0]] + rest;
    }
  }

  /** A well-formed row, rendered, parses back as itself. */
  lemma RowOfRender(row: seq<string>)
    requires WellFormedRow(row)
    ensures RowOf(RenderRow(row)) == Some(row)
  {
    var line := RenderRow(row);
    assert line[0] == '|' && line[|line| - 1] == '|';
    StripTrimmed(line);
    SplitRenderRow(row);
    CellsOfRendered(row);
  }

  /** The cells of a rendered row are the row. */
  lemma CellsOfRendered(row: seq<string>)
    requires forall i :: 0 <= i < |row| ==> row[i] != "" && Trimmed(row[i])
    ensures Cells([""] + row + [""]) == row
  {
    FramedTail(row, "");
    assert Strip("") == "";
    CellsSnocEmpty(row);
    CellsOfClean(row);
  }

  /** A non-empty sequence is its front followed by its last element. */
  lemma SnocLast<T>(xs: seq<T>)
    requires |xs| > 0
    ensures xs[..|xs| - 1] + [xs[|xs| - 1]] == xs
  {
  }

  /** A prefix one element longer is the shorter prefix followed by that element. */
  lemma PrefixSnoc<T>(xs: seq<T>, i: nat)
    requires i < |xs|
    ensures xs[..i + 1] == xs[..i] + [xs[i]]
  {
  }

  /** Dropping the first of two framing elements. */
  lemma FramedTail<T>(xs: seq<T>, e: T)
    ensures ([e] + xs + [e])[1..] == xs + [e]
  {
  }

  /** A trailing empty piece adds no cell. */
  lemma {:induction false} CellsSnocEmpty(pieces: seq<string>)
    ensures Cells(pieces + [""]) == Cells(pieces)
  {
    if |pieces| > 0 {
      assert (pieces + [""])[1..] == pieces[1..] + [""];
      CellsSnocEmpty(pieces[1..]);
    }
  }

  /** Rendered well-formed rows parse back as those rows. */
  lemma {:induction false} RowsOfRendered(rows: seq<seq<string>>)
    requires forall i :: 0 <= i < |rows| ==> WellFormedRow(rows[i])
    ensures Rows(RenderLines(rows)) == rows
  {
    if |rows| > 0 {
      var n := |rows| - 1;
      var prefix := rows[..n];
      assert forall i :: 0 <= i < |prefix| ==> prefix[i] == rows[i];
      RowsOfRendered(prefix);
      RowOfRender(rows[n]);
      RowsSnoc(RenderLines(prefix), RenderRow(rows[n]));
      SnocLast(rows);
    }
  }

  /** The rows of a valid table are well formed. */
  lemma AllRowsWellFormed(t: ParsedTable)
    requires ValidTable(t)
    ensures forall i :: 0 <= i < |AllRows(t)| ==> WellFormedRow(AllRows(t)[i])
  {
    if t.header.Some? {
      assert forall i :: 1 <= i < |AllRows(t)| ==> AllRows(t)[i] == t.body[i - 1];
    }
  }

  /** A rendered well-formed row is a non-empty line without line breaks. */
  lemma RenderRowShape(row: seq<string>)
    requires WellFormedRow(row)
    ensures '\n' !in RenderRow(row) && RenderRow(row) != []
  {
    JoinAvoid(row, '|', '\n');
  }

  /** Rendered rows are non-empty lines free of line breaks. */
  lemma RenderedLinesShape(rows: seq<seq<string>>)
    requires forall i :: 0 <= i < |rows| ==> WellFormedRow(rows[i])
    ensures forall i :: 0 <= i < |rows| ==> '\n' !in RenderLines(rows)[i] && RenderLines(rows)[i] != []
  {
    var lines := RenderLines(rows);
    forall i | 0 <= i < |rows| ensures '\n' !in lines[i] && lines[i] != [] {
      RenderRowShape(rows[i]);
    }
  }

  /** Writing a parsed table back as markdown and parsing it again gives the same table. */
  lemma RenderRoundTrip(t: ParsedTable)
    requires ValidTable(t)
    ensures Parse(Render(t)) == t
  {
    var rows := AllRows(t);
    var lines := RenderLines(rows);
    AllRowsWellFormed(t);
    RowsOfRendered(rows);
    if |rows| == 0 {
      assert Split("", '\n') == [""];
      assert Rows([""]) == Rows([]) + [];
    } else {
      RenderedLinesShape(rows);
      JoinEnds(lines, '\n');
      StripTrimmed(Render(t));
      SplitJoin(lines, '\n');
    }
  }

  /** Parsing is idempotent under rendering: a parsed table survives a second round. */
  lemma ParseRenderParse(text: string)
    ensures Parse(Render(Parse(text))) == Parse(text)
  {
    ParseValid(text);
    RenderRoundTrip(Parse(text));
  }
}
