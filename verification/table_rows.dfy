/**
  Row normalisation in `ResponseFormatter.create_rich_table` and the
  table-or-text decision in `display_response`. Each data row is a Python list
  that the formatter pads in place with empty strings up to the header width;
  the row handed to the table is then cut to exactly that width.
 */
module TableRows {
  import opened Wrappers
  import opened Text
  import opened TableParser

  /** A data row as the mutable list the formatter appends to. */
  class Row {
    var cells: seq<string>

    constructor (cells: seq<string>)
      ensures this.cells == cells
    {
      this.cells := cells;
    }
  }

  /** `n` empty cells. */
  function Blanks(n: nat): (r: seq<string>)
    ensures |r| == n && forall i :: 0 <= i < n ==> r[i] == ""
  {
    seq(n, _ => "")
  }

  /** The row once the padding loop is done: the original cells, then empty cells up to `width`. */
  function PadTo(row: seq<string>, width: nat): (r: seq<string>)
    ensures |r| == if |row| < width then width else |row|
    ensures r[..|row|] == row
    ensures forall i :: |row| <= i < |r| ==> r[i] == ""
  {
    if |row| < width then row + Blanks(width - |row|) else row
  }

  /** The cells handed to `add_row`: the padded row cut to `width`. */
  function Fit(row: seq<string>, width: nat): (r: seq<string>)
    ensures |r| == width
    ensures forall i :: 0 <= i < width ==> r[i] == if i < |row| then row[i] else ""
  {
    PadTo(row, width)[..width]
  }

  /** Padding a padded row changes nothing, and the cells shown do not depend on it. */
  lemma PadToIdempotent(row: seq<string>, width: nat)
    ensures PadTo(PadTo(row, width), width) == PadTo(row, width)
    ensures Fit(PadTo(row, width), width) == Fit(row, width)
  {
  }

  /** The padding loop of `create_rich_table`: append `""` while the row is shorter than the header. */
  method PadRow(row: Row, width: nat)
    modifies row
    ensures row.cells == PadTo(old(row.cells), width)
  {
    while |row.cells| < width
      invariant |old(row.cells)| <= |row.cells|
      invariant |row.cells| <= width || row.cells == old(row.cells)
      invariant row.cells == old(row.cells) + Blanks(|row.cells| - |old(row.cells)|)
      decreases width - |row.cells|
    {
      row.cells := row.cells + [""];
    }
  }

  /**
    The row loop of `create_rich_table`: every data row is padded in place and
    the cells handed to the table are collected. The same list object may occur
    twice in `data`; padding is idempotent, so the result does not depend on it.
   */
  method TableCells(headers: seq<string>, data: seq<Row>) returns (shown: seq<seq<string>>)
    modifies data
    ensures |shown| == |data|
    ensures forall k :: 0 <= k < |data| ==> shown[k] == Fit(old(data[k].cells), |headers|)
    ensures forall k :: 0 <= k < |data| ==> data[k].cells == PadTo(old(data[k].cells), |headers|)
  {
    var width := |headers|;
    shown := [];
    for i := 0 to |data|
      invariant |shown| == i
      invariant forall k :: 0 <= k < i ==> shown[k] == Fit(old(data[k].cells), width)
      invariant forall k :: 0 <= k < i ==> data[k].cells == PadTo(old(data[k].cells), width)
      invariant forall k :: i <= k < |data| ==>
                  data[k].cells == old(data[k].cells) || data[k].cells == PadTo(old(data[k].cells), width)
    {
      PadToIdempotent(old(data[i].cells), width);
      PadRow(data[i], width);
      shown := shown + [data[i].cells[..width]];
    }
  }

  /** `display_response` shows a table when there is a non-empty header and at least one data row. */
  predicate ShowsAsTable(headers: Option<seq<string>>, data: seq<seq<string>>)
  {
    headers.Some? && |headers.value| > 0 && |data| > 0
  }

  /** A parsed answer is shown as a table exactly when at least two rows survived the parser. */
  lemma ShowsAsTableIff(text: string)
    ensures ShowsAsTable(Parse(text).header, Parse(text).body)
        <==> |Rows(Split(Strip(text), '\n'))| >= 2
  {
    ParseWellFormed(text);
  }

  /** Text without any `|` is always shown as free text. */
  lemma PlainTextNotTable(text: string)
    requires '|' !in text
    ensures !ShowsAsTable(Parse(text).header, Parse(text).body)
  {
    ParsePlainText(text);
  }
}
