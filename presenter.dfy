/** The two rules applied to a written sheet that decide what a reader sees: the highlight of
    rows naming "bajaj finserv" (line 167) and the arrow markers of the 'Rank Change' column
    (lines 183-195). */
module Presenter {
  import opened Base
  import opened Text
  import opened Cells
  import opened Pipeline

  /** A decorated 'Rank Change' cell: its new text and its font colour, if any. */
  datatype Marked = Marked(text: string, color: Option<string>)

  const Green: string := "008800"
  const Red: string := "CC0000"
  const UpArrow: char := '↑'
  const DownArrow: char := '↓'
  const Box: char := '■'

  /** Lines 183-195: a change above 0 is written as "<v> ↑" in green, below 0 as "<v> ↓" in
      red, exactly 0 as "<v> ■" in the default colour; an empty cell stays as it is. */
  function Decorate(change: Option<int>): (r: Option<Marked>)
    ensures r.Some? <==> change.Some?
    ensures r.Some? ==> |r.value.text| >= 3 && r.value.text[..|r.value.text| - 2] == DecimalString(change.value)
  {
    match change
    case None => None
    case Some(v) =>
      if v > 0 then Some(Marked(DecimalString(v) + [' ', UpArrow], Some(Green)))
      else if v < 0 then Some(Marked(DecimalString(v) + [' ', DownArrow], Some(Red)))
      else Some(Marked(DecimalString(v) + [' ', Box], None))
  }

  /** The marker that belongs to a change: it depends only on the sign. */
  function ArrowFor(v: int): char
  {
    if v > 0 then UpArrow else if v < 0 then DownArrow else Box
  }

  /** Reads a decorated cell back: the number before the marker, provided the marker agrees
      with the number's sign. */
  function Undecorate(text: string): Option<int>
  {
    if |text| < 2 || text[|text| - 2] != ' ' then None
    else
      match ParseDecimal(text[..|text| - 2])
      case None => None
      case Some(v) => if text[|text| - 1] == ArrowFor(v) then Some(v) else None
  }

  /** The marker and colour follow the sign of the change, and the text reads back as the
      change it decorates. */
  lemma DecorateSpec(v: int)
    ensures var m := Decorate(Some(v)).value;
      && m.text[|m.text| - 1] == ArrowFor(v)
      && (m.text[|m.text| - 1] == UpArrow <==> v > 0)
      && (m.text[|m.text| - 1] == DownArrow <==> v < 0)
      && (m.text[|m.text| - 1] == Box <==> v == 0)
      && (m.color == Some(Green) <==> v > 0)
      && (m.color == Some(Red) <==> v < 0)
      && (m.color.None? <==> v == 0)
      && Undecorate(m.text) == Some(v)
  {
    var m := Decorate(Some(v)).value;
    var n := |m.text|;
    assert m.text[..n - 2] == DecimalString(v);
    DecimalRoundTrip(v);
  }

  /** Two different changes are never shown alike. */
  lemma DecorateInjective(v: int, w: int)
    requires Decorate(Some(v)).value.text == Decorate(Some(w)).value.text
    ensures v == w
  {
    DecorateSpec(v);
    DecorateSpec(w);
  }

  /** The cells of a written row the highlight rule looks at (columns 2 onwards: rank, fund,
      value, change); a total row has neither a rank nor a change. */
  function RowCells(r: OutRow): (cells: seq<Cell>)
    ensures |cells| == 4 && cells[1] == r.fund
  {
    match r
    case RankedRow(rank, fund, value, change) => [Num(rank), fund, Num(value), Num(change)]
    case SummaryRow(fund, cell) => [Null, fund, cell, Null]
  }

  const Keyword: string := "bajaj finserv"

  /** A printed number is made of digits and a minus sign, and "None" is falsy, so only a text
      cell can name the keyword. */
  lemma KeywordOnlyInText(c: Cell)
    ensures Truthy(c) && Contains(Lower(AsString(c)), Keyword) <==> c.Str? && Contains(Lower(c.s), Keyword)
  {
    match c
    case Num(n) =>
      var s := Lower(DecimalString(n));
      if Contains(s, Keyword) {
        ContainsFirstChar(s, Keyword);
        var i :| 0 <= i < |s| && s[i] == Keyword[0];
        DecimalAlphabet(n);
        assert false;
      }
    case Str(s) =>
      if Contains(Lower(s), Keyword) {
        ContainsLength(Lower(s), Keyword);
      }
    case Null =>
  }

  /** `cell.value and 'bajaj finserv' in str(cell.value).lower()`: a cell mentions the keyword
      exactly when it holds text whose lower-case form contains it. */
  predicate Mentions(c: Cell)
    ensures Mentions(c) <==> c.Str? && Contains(Lower(c.s), Keyword)
  {
    KeywordOnlyInText(c);
    Truthy(c) && Contains(Lower(AsString(c)), Keyword)
  }

  /** Line 167: `any(...)` over the cells of a row, left to right. */
  function Highlighted(cells: seq<Cell>): (h: bool)
    ensures h <==> exists i :: 0 <= i < |cells| && Mentions(cells[i])
  {
    if cells == [] then false
    else Mentions(cells[0]) || Highlighted(cells[1..])
  }

  /** Line 167 on an output row: only its text cells can trigger the highlight, so a ranked
      row is highlighted exactly when its fund name mentions "bajaj finserv" in any case, and a
      total row when its name or its value cell does. */
  lemma HighlightedRow(r: OutRow)
    ensures Highlighted(RowCells(r)) <==>
      || (r.fund.Str? && Contains(Lower(r.fund.s), Keyword))
      || (r.SummaryRow? && r.cell.Str? && Contains(Lower(r.cell.s), Keyword))
  {
    var cells := RowCells(r);
    if r.SummaryRow? {
      assert cells[2] == r.cell;
    }
  }
}
