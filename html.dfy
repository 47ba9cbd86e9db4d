/** The table cells and row template shared by the daily report (day_gen.py)
    and the published pages (github.py): both build rows from the same
    template text and format confidences with the same rule. */
module Html {
  import opened Wrappers
  import opened Text
  import opened Numbers

  const NaCell: string := "<td class=\"px-6 py-4 text-center text-gray-400\">N/A</td>"
  const ConfidenceOpen: string := "<td class=\"px-6 py-4 text-center font-semibold text-blue-600\">"
  const OddsOpen: string := "<td class=\"px-6 py-4 text-center font-semibold text-green-600\">"
  const FixtureOpen: string := "<td class=\"px-6 py-4 font-medium text-gray-900 whitespace-nowrap\">"
  const PickOpen: string := "<td class=\"px-6 py-4\">"
  const CellClose: string := "</td>"
  const RowOpen: string := "\n" + "    <tr class=\"bg-white border-b hover:bg-gray-50 transition-colors duration-150\">"
  const CellIndent: string := "\n        "
  const RowClose: string := "\n    </tr>\n    "

  /** A report row as a column name to cell map; a present column may hold
      a missing (NaN) value. */
  type Row = map<string, Option<string>>

  /** `row.get(col)`: None when the column is absent or the value missing. */
  function Cell(row: Row, col: string): Option<string> {
    if col in row then row[col] else None
  }

  /** `f"{row.get(col, 'N/A')}"`: a missing value prints as `nan`, an absent
      column as `N/A`. */
  function CellText(row: Row, col: string): (t: string)
    ensures col !in row ==> t == "N/A"
    ensures col in row ==> t == PyStr(row[col])
  {
    if col in row then PyStr(row[col]) else "N/A"
  }

  /** The row template: every cell on its own indented line. */
  function TableRow(cells: seq<string>): string {
    RowOpen + IndentedCells(cells) + RowClose
  }

  function IndentedCells(cells: seq<string>): string {
    if cells == [] then "" else CellIndent + cells[0] + IndentedCells(cells[1..])
  }

  /** Every row starts with a line break, so no row is empty. */
  lemma TableRowStart(cells: seq<string>)
    ensures |TableRow(cells)| > 0 && TableRow(cells)[0] == '\n'
  {
    assert TableRow(cells) == RowOpen + (IndentedCells(cells) + RowClose);
    assert RowOpen[0] == '\n';
  }

  function FixtureCell(row: Row): string {
    FixtureOpen + CellText(row, "Fixture") + CellClose
  }

  function PickCell(row: Row): string {
    PickOpen + CellText(row, "Pick") + CellClose
  }

  /** `pd.isna(value) or str(value).strip() == ''`. */
  predicate Blank(v: Option<string>) {
    v.None? || Strip(v.value) == ""
  }

  /** The shown confidence: the stripped text, with a `%` added unless it
      already ends in one. */
  function Display(v: Option<string>): string
    requires !Blank(v)
  {
    var s := Strip(v.value);
    if EndsWith(s, '%') then s else s + "%"
  }

  /** `format_confidence` (day_gen.py) and `format_conf` (github.py). */
  function FormatConfidence(v: Option<string>): string {
    if Blank(v) then NaCell else ConfidenceOpen + Display(v) + CellClose
  }

  /** `format_odds` (github.py): the value as given, not stripped and with
      no `%` added. */
  function FormatOdds(v: Option<string>): string {
    if Blank(v) then NaCell else OddsOpen + v.value + CellClose
  }

  /** A value cell never reads as the N/A cell: the two differ in their
      first class after `text-center`. */
  lemma ValueCellIsNotNa(open: string, text: string)
    requires open == ConfidenceOpen || open == OddsOpen
    ensures open + text + CellClose != NaCell
  {
    assert (open + text + CellClose)[33] == open[33] == 'f';
    assert NaCell[33] == 't';
  }

  /** The confidence cell is N/A exactly for a missing or blank value. */
  lemma FormatConfidenceNa(v: Option<string>)
    ensures FormatConfidence(v) == NaCell <==> Blank(v)
  {
    if !Blank(v) {
      ValueCellIsNotNa(ConfidenceOpen, Display(v));
    }
  }

  /** The odds cell is N/A exactly for a missing or blank value. */
  lemma FormatOddsNa(v: Option<string>)
    ensures FormatOdds(v) == NaCell <==> Blank(v)
  {
    if !Blank(v) {
      ValueCellIsNotNa(OddsOpen, v.value);
    }
  }

  /** The shown confidence ends in exactly the `%` the value had, or in one
      added to it, and a value already ending in `%` is shown unchanged. */
  lemma DisplayPercent(v: Option<string>)
    requires !Blank(v)
    ensures EndsWith(Display(v), '%')
    ensures EndsWith(Strip(v.value), '%') ==> Display(v) == Strip(v.value)
    ensures !EndsWith(Strip(v.value), '%') ==> Display(v) == Strip(v.value) + "%"
  {
  }

  /** Formatting what is shown gives the same cell again. */
  lemma FormatConfidenceIdempotent(v: Option<string>)
    requires !Blank(v)
    ensures !Blank(Some(Display(v))) && FormatConfidence(Some(Display(v))) == FormatConfidence(v)
  {
    var s, d := Strip(v.value), Display(v);
    assert d[0] == s[0];
    assert !IsSpace(d[|d| - 1]);
    StripTrimmed(d);
  }

  const PlaceholderOpen: string := "<tr><td colspan=\""

  /** The one-row stand-in for an empty table body: a single cell spanning
      `span` columns. */
  function Placeholder(span: nat, message: string): string {
    PlaceholderOpen + NatToString(span) + "\"" + PlaceholderRest(message)
  }

  function PlaceholderRest(message: string): string {
    " class=\"text-center p-8 text-gray-500\">" + message + "</td></tr>"
  }

  /** Reads back the column span of a placeholder row. */
  function SpanOf(html: string): Option<nat> {
    var n := |PlaceholderOpen|;
    if |html| < n || html[..n] != PlaceholderOpen then None
    else match FindChar(html[n..], '"')
      case None => None
      case Some(k) =>
        var digits := html[n..][..k];
        if digits != [] && AllDigits(digits) then Some(DigitsValue(digits)) else None
  }

  lemma SpanOfDigits(digits: string, tail: string)
    requires digits != [] && AllDigits(digits)
    ensures SpanOf(PlaceholderOpen + digits + ['"'] + tail) == Some(DigitsValue(digits))
  {
    var html := PlaceholderOpen + digits + ['"'] + tail;
    var n := |PlaceholderOpen|;
    assert html[..n] == PlaceholderOpen;
    assert html[n..] == digits + ['"'] + tail;
    assert '"' !in digits by {
      forall i | 0 <= i < |digits| ensures digits[i] != '"' { assert IsDigit(digits[i]); }
    }
    FindCharAfter(digits, '"', tail);
    assert html[n..][..|digits|] == digits;
  }

  /** The placeholder's span reads back as the span it was given. */
  lemma SpanOfPlaceholder(span: nat, message: string)
    ensures SpanOf(Placeholder(span, message)) == Some(span)
  {
    SpanOfDigits(NatToString(span), PlaceholderRest(message));
  }

  /** The placeholder begins with `<`, so it never reads as rendered rows,
      which all begin with a line break. */
  lemma PlaceholderStart(span: nat, message: string)
    ensures |Placeholder(span, message)| > 0 && Placeholder(span, message)[0] == '<'
  {
    assert Placeholder(span, message)[0] == PlaceholderOpen[0];
  }
}
