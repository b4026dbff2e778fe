/** The raw, headerless spreadsheet as the pipeline receives it, and the few
    things it asks of a cell. */
module Cells {
  import opened Wrappers
  import opened Text

  /** One spreadsheet cell: empty (pandas NaN), a number, or text. */
  datatype Cell = Blank | Num(value: real) | Str(text: string)

  /** The cell conversions that belong to the spreadsheet library and are
      kept abstract: how `str()` renders a number, how `to_numeric` reads a
      text cell, and how the day-first `to_datetime` reads a cell, as a day
      number (`None` for an unparseable cell, pandas NaT). */
  datatype Conversions = Conversions(
    render: real -> string,
    parseNumber: string -> Option<real>,
    parseDay: Cell -> Option<int>)

  /** `str(v)` of a cell; an empty cell reads as "nan". */
  function CellText(c: Cell, conv: Conversions): string {
    match c
    case Blank => "nan"
    case Num(v) => conv.render(v)
    case Str(s) => s
  }

  /** `str(v).strip().upper()`, the form in which header labels are compared. */
  function Normalized(c: Cell, conv: Conversions): string {
    Upper(Strip(CellText(c, conv)))
  }

  /** `to_numeric(..., errors='coerce')` of a cell: `None` where pandas gives NaN. */
  function AsNumber(c: Cell, conv: Conversions): Option<real> {
    match c
    case Blank => None
    case Num(v) => Some(v)
    case Str(s) => conv.parseNumber(s)
  }

  /** A table of `width` columns. A row shorter than `width` is padded with
      empty cells, as the spreadsheet reader pads it. */
  datatype Table = Table(width: nat, rows: seq<seq<Cell>>)

  /** The cell at row `i`, column `j`. */
  function At(t: Table, i: nat, j: nat): Cell
    requires i < |t.rows|
  {
    if j < |t.rows[i]| then t.rows[i][j] else Blank
  }

  /** The normalised text of every cell of row `i`. */
  function RowLabels(t: Table, i: nat, conv: Conversions): (labels: seq<string>)
    requires i < |t.rows|
    ensures |labels| == t.width
    ensures forall j :: 0 <= j < t.width ==> labels[j] == Normalized(At(t, i, j), conv)
  {
    seq(t.width, j requires 0 <= j < t.width => Normalized(At(t, i, j), conv))
  }
}
