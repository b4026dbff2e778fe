/** Column selection: turning the raw table into records of the seven cells
    the analysis needs, either by locating the header row by its labels or by
    fixed column positions. */
module Columns {
  import opened Wrappers
  import opened Text
  import opened Cells
  import opened Header

  /** How the seven columns are found. `ByHeader` searches the leading rows
      for the labels, `tonsLabel` naming the tonnage column ("TONS" or "TON");
      `ByPosition` takes fixed column positions. */
  datatype Layout = ByHeader(tonsLabel: string) | ByPosition

  /** Structural failures: no header row, a required name other than FILIAL
      and CLIENTE on more than one column of the header row, FILIAL or CLIENTE
      on more than one column once there are ready rows to group, a table too
      narrow for the fixed positions, or an empty table where the first row
      must be inspected. */
  datatype Problem = HeaderNotFound | DuplicateColumn | RepeatedKeyColumn | TooFewColumns | NoRows

  /** The seven raw cells of one data row: FILIAL, GERENTE, PEDIDO, CLIENTE,
      LOTE, the tonnage column and ENTREGA. */
  datatype RawRecord = RawRecord(
    branch: Cell, manager: Cell, orderId: Cell, customer: Cell,
    lot: Cell, tons: Cell, delivery: Cell)

  function RequiredLabels(tonsLabel: string): seq<string> {
    ["FILIAL", "GERENTE", "PEDIDO", "CLIENTE", "LOTE", tonsLabel, "ENTREGA"]
  }

  /** Column positions of the seven fields in the fixed layout. */
  const FixedColumns: seq<nat> := [0, 3, 5, 9, 15, 24, 29]

  /** Field `f` of a record, in the order of `RequiredLabels`. */
  function Field(r: RawRecord, f: nat): Cell
    requires f < 7
  {
    [r.branch, r.manager, r.orderId, r.customer, r.lot, r.tons, r.delivery][f]
  }

  /** Row `i` cut down to the columns `cols`, in that order. */
  function Project(t: Table, i: nat, cols: seq<nat>): (r: RawRecord)
    requires i < |t.rows| && |cols| == 7
    ensures forall f :: 0 <= f < 7 ==> Field(r, f) == At(t, i, cols[f])
  {
    RawRecord(At(t, i, cols[0]), At(t, i, cols[1]), At(t, i, cols[2]), At(t, i, cols[3]),
              At(t, i, cols[4]), At(t, i, cols[5]), At(t, i, cols[6]))
  }

  /** The first position of `name` in `labels`. */
  function IndexOf(labels: seq<string>, name: string): (j: nat)
    requires name in labels
    ensures j < |labels| && labels[j] == name
    ensures forall i :: 0 <= i < j ==> labels[i] != name
  {
    if labels[0] == name then 0 else 1 + IndexOf(labels[1..], name)
  }

  /** `name` names two or more columns. */
  predicate Repeated(labels: seq<string>, name: string) {
    exists j, k :: 0 <= j < k < |labels| && labels[j] == name && labels[k] == name
  }

  /** Fields 0 and 3, FILIAL and CLIENTE: the grouping keys. */
  predicate KeyField(f: nat) {
    f == 0 || f == 3
  }

  /** Some required label other than the grouping keys names two or more
      columns. The cleaning step fails on such a column before any row is
      judged ready. */
  predicate RefusedRepeat(labels: seq<string>, required: seq<string>) {
    exists f :: 0 <= f < |required| && !KeyField(f) && Repeated(labels, required[f])
  }

  /** A grouping key names two or more columns. Only the grouping step fails
      on such a column, after the check for ready rows. */
  predicate KeyRepeated(labels: seq<string>, required: seq<string>) {
    exists f :: 0 <= f < |required| && KeyField(f) && Repeated(labels, required[f])
  }

  /** The selected header row repeats a grouping key. The fixed layout names
      every column once. */
  function KeyColumnsRepeated(t: Table, layout: Layout, conv: Conversions): bool {
    match layout
    case ByPosition => false
    case ByHeader(tonsLabel) =>
      match FindHeader(t, RequiredLabels(tonsLabel), conv)
      case None => false
      case Some(h) => KeyRepeated(RowLabels(t, h, conv), RequiredLabels(tonsLabel))
  }

  /** The column of each required label: the first one carrying it. */
  function HeaderColumns(labels: seq<string>, required: seq<string>): (cols: seq<nat>)
    requires Header.ContainsAll(labels, required)
    ensures |cols| == |required|
    ensures forall f :: 0 <= f < |required| ==> cols[f] == IndexOf(labels, required[f])
  {
    seq(|required|, f requires 0 <= f < |required| => IndexOf(labels, required[f]))
  }

  /** The rows from `start` on, each cut down to the columns `cols`. */
  function RowsFrom(t: Table, start: nat, cols: seq<nat>): (recs: seq<RawRecord>)
    requires start <= |t.rows| && |cols| == 7
    ensures |recs| == |t.rows| - start
    ensures forall k, f :: 0 <= k < |recs| && 0 <= f < 7 ==> Field(recs[k], f) == At(t, start + k, cols[f])
  {
    var recs := seq(|t.rows| - start, k requires 0 <= k < |t.rows| - start => Project(t, start + k, cols));
    assert forall k :: 0 <= k < |recs| ==> recs[k] == Project(t, start + k, cols);
    recs
  }

  /** The records below header row `h`: refused when a required label other
      than a grouping key names two columns, otherwise projected onto the
      first column of each required label. */
  function RecordsBelow(t: Table, h: nat, required: seq<string>, conv: Conversions): (r: Result<seq<RawRecord>, Problem>)
    requires |required| == 7 && h < |t.rows| && IsHeader(t, h, required, conv)
    ensures r.Failure? ==> r.error == DuplicateColumn
    ensures r.Success? <==> !RefusedRepeat(RowLabels(t, h, conv), required)
    ensures r.Success? ==> r.value == RowsFrom(t, h + 1, HeaderColumns(RowLabels(t, h, conv), required))
  {
    var labels := RowLabels(t, h, conv);
    if RefusedRepeat(labels, required) then Failure(DuplicateColumn)
    else Success(RowsFrom(t, h + 1, HeaderColumns(labels, required)))
  }

  /** Selection by header: find the header row, relabel the columns with its
      normalised text, keep only the rows below it and project them onto the
      `required` labels, each but FILIAL and CLIENTE naming exactly one
      column. */
  function SelectByLabels(t: Table, required: seq<string>, conv: Conversions): (r: Result<seq<RawRecord>, Problem>)
    requires |required| == 7
    ensures r == Failure(HeaderNotFound) <==>
      forall i :: 0 <= i < ScanEnd(t) ==> !IsHeader(t, i, required, conv)
    ensures r.Failure? ==> r.error == HeaderNotFound || r.error == DuplicateColumn
    ensures FindHeader(t, required, conv).Some? ==>
      (r.Success? <==> !RefusedRepeat(RowLabels(t, FindHeader(t, required, conv).value, conv), required))
    ensures r.Success? ==>
      var h := FindHeader(t, required, conv).value;
      var labels := RowLabels(t, h, conv);
      && !RefusedRepeat(labels, required)
      && r.value == RowsFrom(t, h + 1, HeaderColumns(labels, required))
  {
    match FindHeader(t, required, conv)
    case None => Failure(HeaderNotFound)
    case Some(h) => RecordsBelow(t, h, required, conv)
  }

  function SelectByHeader(t: Table, tonsLabel: string, conv: Conversions): Result<seq<RawRecord>, Problem> {
    SelectByLabels(t, RequiredLabels(tonsLabel), conv)
  }

  /** `recs` are the rows from `start` on, field `f` of each read from the
      first column whose label is the `f`-th required one (`IndexOf`). */
  predicate ReadByLabel(t: Table, start: nat, labels: seq<string>, required: seq<string>, recs: seq<RawRecord>)
    requires |required| == 7 && Header.ContainsAll(labels, required)
  {
    && |recs| == |t.rows| - start
    && forall k, f :: 0 <= k < |recs| && 0 <= f < 7 ==>
         Field(recs[k], f) == At(t, start + k, IndexOf(labels, required[f]))
  }

  /** After selection by header, the data rows are exactly the rows below the
      header row h, in order: field `f` of the `k`-th record is the cell of
      row h+1+k in the first column whose header reads the `f`-th required
      label. Every label but FILIAL and CLIENTE names only that one column. */
  lemma HeaderSelectionFields(t: Table, required: seq<string>, conv: Conversions)
    requires |required| == 7
    ensures var r := SelectByLabels(t, required, conv);
      r.Success? ==>
        var h := FindHeader(t, required, conv).value;
        && Header.ContainsAll(RowLabels(t, h, conv), required)
        && !RefusedRepeat(RowLabels(t, h, conv), required)
        && ReadByLabel(t, h + 1, RowLabels(t, h, conv), required, r.value)
  {
    match FindHeader(t, required, conv)
    case None =>
    case Some(h) =>
      assert SelectByLabels(t, required, conv) == RecordsBelow(t, h, required, conv);
      RecordsBelowFields(t, h, required, conv);
  }

  /** The records below header row `h`, when accepted, read each required
      label's first column, row by row from h+1. */
  lemma RecordsBelowFields(t: Table, h: nat, required: seq<string>, conv: Conversions)
    requires |required| == 7 && h < |t.rows| && IsHeader(t, h, required, conv)
    ensures var r := RecordsBelow(t, h, required, conv);
      r.Success? ==> ReadByLabel(t, h + 1, RowLabels(t, h, conv), required, r.value)
  {
    var labels := RowLabels(t, h, conv);
    if !RefusedRepeat(labels, required) {
      ProjectionReadsByLabel(t, h + 1, labels, required);
    }
  }

  /** Projecting the rows from `start` onto `HeaderColumns` reads each
      required label's first column. */
  lemma ProjectionReadsByLabel(t: Table, start: nat, labels: seq<string>, required: seq<string>)
    requires start <= |t.rows| && |required| == 7 && Header.ContainsAll(labels, required)
    ensures ReadByLabel(t, start, labels, required, RowsFrom(t, start, HeaderColumns(labels, required)))
  {
    var cols := HeaderColumns(labels, required);
    var recs := RowsFrom(t, start, cols);
    forall k, f | 0 <= k < |recs| && 0 <= f < 7
      ensures Field(recs[k], f) == At(t, start + k, IndexOf(labels, required[f]))
    {
      assert cols[f] == IndexOf(labels, required[f]);
    }
  }

  /** 1 when the first row's tonnage cell reads "TON" (a header read as
      data), else 0. */
  function HeaderSkip(t: Table, conv: Conversions): nat
    requires |t.rows| > 0
  {
    if Normalized(At(t, 0, 24), conv) == "TON" then 1 else 0
  }

  /** Selection by position: columns 0, 3, 5, 9, 15, 24 and 29, the first row
      dropped when its tonnage cell reads "TON". */
  function SelectByPosition(t: Table, conv: Conversions): (r: Result<seq<RawRecord>, Problem>)
    ensures r == Failure(TooFewColumns) <==> t.width < 30
    ensures r == Failure(NoRows) <==> 30 <= t.width && |t.rows| == 0
    ensures r.Success? <==> 30 <= t.width && |t.rows| > 0
    ensures r.Success? ==>
      && |t.rows| > 0
      && (HeaderSkip(t, conv) == 1 <==> Normalized(At(t, 0, 24), conv) == "TON")
      && |r.value| == |t.rows| - HeaderSkip(t, conv)
      && (forall k, f :: 0 <= k < |r.value| && 0 <= f < 7 ==>
            Field(r.value[k], f) == At(t, HeaderSkip(t, conv) + k, FixedColumns[f]))
  {
    if t.width < 30 then Failure(TooFewColumns)
    else if |t.rows| == 0 then Failure(NoRows)
    else Success(RowsFrom(t, HeaderSkip(t, conv), FixedColumns))
  }

  function Select(t: Table, layout: Layout, conv: Conversions): Result<seq<RawRecord>, Problem> {
    match layout
    case ByHeader(tonsLabel) => SelectByHeader(t, tonsLabel, conv)
    case ByPosition => SelectByPosition(t, conv)
  }
}
