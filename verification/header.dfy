/** Header discovery: the first of the leading rows of a raw table that
    carries every required column label. */
module Header {
  import opened Wrappers
  import opened Cells

  /** Only the first ten rows are searched (`df.head(10)`). */
  const ScanRows: nat := 10

  /** One past the last row index the search looks at. */
  function ScanEnd(t: Table): nat {
    if |t.rows| < ScanRows then |t.rows| else ScanRows
  }

  predicate ContainsAll(labels: seq<string>, required: seq<string>) {
    forall k :: 0 <= k < |required| ==> required[k] in labels
  }

  /** Row `i`, normalised, holds every required label. */
  predicate IsHeader(t: Table, i: nat, required: seq<string>, conv: Conversions)
    requires i < |t.rows|
  {
    ContainsAll(RowLabels(t, i, conv), required)
  }

  /** The first header row at or after row `i` within the scan window. */
  function FindFrom(t: Table, required: seq<string>, conv: Conversions, i: nat): (r: Option<nat>)
    requires i <= ScanEnd(t)
    ensures r.Some? ==> i <= r.value < ScanEnd(t) && IsHeader(t, r.value, required, conv)
    ensures forall j :: i <= j < ScanEnd(t) && (r.None? || j < r.value) ==> !IsHeader(t, j, required, conv)
    decreases ScanEnd(t) - i
  {
    if i == ScanEnd(t) then None
    else if IsHeader(t, i, required, conv) then Some(i)
    else FindFrom(t, required, conv, i + 1)
  }

  /** The index of the first row among the first ten that holds every
      required label, or `None` when no such row exists. */
  function FindHeader(t: Table, required: seq<string>, conv: Conversions): (r: Option<nat>)
    ensures r.Some? ==> r.value < ScanRows && r.value < |t.rows| && IsHeader(t, r.value, required, conv)
    ensures r.Some? ==> forall j :: 0 <= j < r.value ==> !IsHeader(t, j, required, conv)
    ensures r.None? <==> forall j :: 0 <= j < ScanEnd(t) ==> !IsHeader(t, j, required, conv)
  {
    FindFrom(t, required, conv, 0)
  }
}
