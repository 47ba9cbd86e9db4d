/** The daily report (day_gen.py): one table row per combined-confidence
    record that has every required column, or a placeholder row when no
    record does. */
module DayGen {
  import opened Wrappers
  import opened Text
  import opened Seqs
  import opened Html

  /** The columns a record must have to be shown, in display order. */
  const RequiredColumns: seq<string> :=
    ["Fixture", "Pick", "AI_Confidence", "OLBG_Confidence", "Oddspedia_Confidence"]

  /** The table header, one title per shown column. */
  const HeaderColumns: seq<string> :=
    ["Fixture", "Pick", "AI Confidence", "OLBG Confidence", "Oddspedia Confidence"]

  const NoData: string := "No data found in the data file. Please ensure the file contains data."

  /** The placeholder spans the five columns of the table. */
  const PlaceholderSpan: nat := 5

  predicate HasRequired(row: Row) {
    forall k :: 0 <= k < |RequiredColumns| ==> RequiredColumns[k] in row
  }

  /** The five cells of `create_html_table_row`: fixture, pick and the three
      formatted confidences. */
  function RowCells(row: Row): seq<string> {
    [FixtureCell(row), PickCell(row),
     FormatConfidence(Cell(row, "AI_Confidence")),
     FormatConfidence(Cell(row, "OLBG_Confidence")),
     FormatConfidence(Cell(row, "Oddspedia_Confidence"))]
  }

  function CreateRow(row: Row): string {
    TableRow(RowCells(row))
  }

  /** A record is shown only when it has every required column. */
  function Rendered(row: Row): Option<string> {
    if HasRequired(row) then Some(CreateRow(row)) else None
  }

  function TableBody(rows: seq<Row>): string {
    var all := Concat(FilterMap(rows, Rendered));
    if all != "" then all else Placeholder(PlaceholderSpan, NoData)
  }

  /** The rows loop of `generate_html_file` and the body it fills in. */
  method DayTableBody(rows: seq<Row>) returns (body: string)
    ensures body == TableBody(rows)
  {
    var rendered: seq<string> := [];
    for i := 0 to |rows|
      invariant rendered == FilterMap(rows[..i], Rendered)
    {
      FilterMapStep(rows, i, rendered, Rendered);
      if HasRequired(rows[i]) {
        rendered := rendered + [CreateRow(rows[i])];
      }
    }
    assert rows[..|rows|] == rows;
    var all := Concat(rendered);
    body := if all != "" then all else Placeholder(PlaceholderSpan, NoData);
  }

  /** Each shown row has one cell per header column and per required
      column, and so has the placeholder's span. */
  lemma ColumnsAgree(row: Row)
    ensures |RowCells(row)| == |HeaderColumns| == |RequiredColumns| == PlaceholderSpan
  {
  }

  /** A row shows the record's fixture and pick as text. */
  lemma RowCellsText(row: Row)
    requires "Fixture" in row && "Pick" in row
    ensures RowCells(row)[0] == FixtureOpen + PyStr(row["Fixture"]) + CellClose
    ensures RowCells(row)[1] == PickOpen + PyStr(row["Pick"]) + CellClose
  {
  }

  /** A confidence cell is N/A exactly when that confidence is absent,
      missing or blank. */
  lemma ConfidenceCellNa(row: Row, k: nat)
    requires 2 <= k < 5
    ensures RowCells(row)[k] == FormatConfidence(Cell(row, RequiredColumns[k]))
    ensures RowCells(row)[k] == NaCell <==> Blank(Cell(row, RequiredColumns[k]))
  {
    var col := RequiredColumns[k];
    assert RowCells(row)[k] == FormatConfidence(Cell(row, col)) by {
      if k == 2 {
        assert col == "AI_Confidence";
      } else if k == 3 {
        assert col == "OLBG_Confidence";
      } else {
        assert col == "Oddspedia_Confidence";
      }
    }
    FormatConfidenceNa(Cell(row, col));
  }

  lemma RenderedStart(rows: seq<Row>)
    ensures forall k :: 0 <= k < |FilterMap(rows, Rendered)| ==>
      FilterMap(rows, Rendered)[k] != [] && FilterMap(rows, Rendered)[k][0] == '\n'
  {
    forall k | 0 <= k < |FilterMap(rows, Rendered)|
      ensures FilterMap(rows, Rendered)[k] != [] && FilterMap(rows, Rendered)[k][0] == '\n'
    {
      var y := FilterMap(rows, Rendered)[k];
      FilterMapMember(rows, Rendered, y);
      var i :| 0 <= i < |rows| && Rendered(rows[i]) == Some(y);
      TableRowStart(RowCells(rows[i]));
    }
  }

  /** The placeholder appears exactly when no record has every required
      column, and it then spans the table's columns. */
  lemma PlaceholderIffNoneComplete(rows: seq<Row>)
    ensures TableBody(rows) == Placeholder(PlaceholderSpan, NoData) <==>
      forall i :: 0 <= i < |rows| ==> !HasRequired(rows[i])
    ensures SpanOf(Placeholder(PlaceholderSpan, NoData)) == Some(|HeaderColumns|)
  {
    var out := FilterMap(rows, Rendered);
    RenderedStart(rows);
    ConcatStart(out, '\n');
    PlaceholderStart(PlaceholderSpan, NoData);
    SpanOfPlaceholder(PlaceholderSpan, NoData);
    if forall i :: 0 <= i < |rows| ==> !HasRequired(rows[i]) {
      FilterMapNoneKept(rows, Rendered);
    } else {
      var i :| 0 <= i < |rows| && HasRequired(rows[i]);
      FilterMapMember(rows, Rendered, CreateRow(rows[i]));
    }
  }

  /** The records of one table all have the same columns; then either every
      record is shown, in order, or none is. */
  lemma SameColumnsAllOrNone(rows: seq<Row>)
    requires forall i, j :: 0 <= i < |rows| && 0 <= j < |rows| ==> rows[i].Keys == rows[j].Keys
    ensures FilterMap(rows, Rendered) == Map(rows, CreateRow) || FilterMap(rows, Rendered) == []
  {
    if rows != [] {
      var first := rows[0];
      forall i | 0 <= i < |rows| ensures HasRequired(rows[i]) == HasRequired(first) {
        SameKeysSameRequired(rows[i], first);
      }
      if HasRequired(first) {
        AllShown(rows);
      } else {
        FilterMapNoneKept(rows, Rendered);
      }
    }
  }

  lemma SameKeysSameRequired(a: Row, b: Row)
    requires a.Keys == b.Keys
    ensures HasRequired(a) == HasRequired(b)
  {
    assert forall col :: col in a <==> col in b;
  }

  lemma AllShown(rows: seq<Row>)
    requires forall i :: 0 <= i < |rows| ==> HasRequired(rows[i])
    ensures FilterMap(rows, Rendered) == Map(rows, CreateRow)
  {
    FilterMapAllKept(rows, Rendered, CreateRow);
  }
}
