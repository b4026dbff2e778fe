/** The whole analysis, `processar_dados`, as one function of the raw table,
    the column layout, the chosen manager, the minimum tonnage and "today". */
module Pipeline {
  import opened Wrappers
  import opened Cells
  import opened Header
  import opened Columns
  import opened Cleaning
  import opened Readiness
  import opened Volume
  import opened Delay
  import opened Report

  /** The result of one run: the report, one of the two business-empty
      outcomes, or a structural failure (every error the analysis catches). */
  datatype Outcome =
    | Ok(report: seq<ReportRow>)
    | NoReadyMaterial
    | NoCustomerReachedMinimum
    | Error(problem: Problem)

  /** The four programs that carry the analysis. */
  datatype Variant = Desktop | WebFixed | WebByTon | WebByTons

  /** Desktop (analise_carteira.py) and WebFixed (analise_carteiraSL.py) take
      fixed positions; WebByTon (analise_carteiraSLV2.py) and WebByTons
      (analise_carteiraSLV3.py) search the header for "TON" or "TONS". */
  function LayoutOf(v: Variant): Layout {
    match v
    case Desktop => ByPosition
    case WebFixed => ByPosition
    case WebByTon => ByHeader("TON")
    case WebByTons => ByHeader("TONS")
  }

  /** The ready rows of a selected table. */
  function ReadyRows(recs: seq<RawRecord>, manager: string, conv: Conversions): seq<Order> {
    Ready(Clean(recs, conv), manager)
  }

  /** A ready row belongs to a pair whose ready tonnage reaches `minimum`. */
  predicate Reaches(ready: seq<Order>, o: Order, minimum: real) {
    Groupable(KeyOf(o)) && GroupSum(ready, KeyOf(o)) >= minimum
  }

  /** Everything after the ready filter: the empty outcome when nothing is
      ready, the other empty outcome when no pair reaches the minimum, and
      otherwise the report of the rows of the qualifying pairs. */
  function Analyse(ready: seq<Order>, minimum: real, today: int): (out: Outcome)
    ensures !out.Error?
    ensures out.Ok? ==> out.report != [] && Sorted(out.report)
  {
    if |ready| == 0 then NoReadyMaterial
    else
      var keys := QualifyingKeys(ready, minimum);
      if keys == {} then NoCustomerReachedMinimum
      else
        NoKeysIffNoRows(ready, minimum);
        Ok(AssembleReport(SemiJoin(ready, keys), today))
  }

  /** The whole run. A header repeating FILIAL or CLIENTE fails only at the
      grouping, so after the check for ready rows. */
  function Process(t: Table, layout: Layout, manager: string, minimum: real, today: int, conv: Conversions): (out: Outcome)
    ensures out.Ok? ==> out.report != [] && Sorted(out.report)
    ensures out.Ok? ==> !KeyColumnsRepeated(t, layout, conv)
  {
    match Select(t, layout, conv)
    case Failure(p) => Error(p)
    case Success(recs) =>
      var ready := ReadyRows(recs, manager, conv);
      if ready != [] && KeyColumnsRepeated(t, layout, conv) then Error(RepeatedKeyColumn)
      else Analyse(ready, minimum, today)
  }

  /** The empty outcomes of the analysis step, each in both directions. */
  lemma AnalyseOutcome(ready: seq<Order>, minimum: real, today: int)
    ensures Analyse(ready, minimum, today) == NoReadyMaterial <==> ready == []
    ensures Analyse(ready, minimum, today) == NoCustomerReachedMinimum <==>
      ready != [] && forall o :: o in ready ==> !Reaches(ready, o, minimum)
  {
    NoKeysIffNoRows(ready, minimum);
    if QualifyingKeys(ready, minimum) == {} {
      forall o | o in ready ensures !Reaches(ready, o, minimum) {
        QualifiedMembership(ready, minimum, o);
      }
    } else {
      var o := Qualified(ready, minimum)[0];
      assert o in Qualified(ready, minimum);
      QualifiedMembership(ready, minimum, o);
    }
  }

  /** Which outcome a run has: an error exactly when column selection fails
      or when rows are ready and the header repeats FILIAL or CLIENTE; "no
      ready material" exactly when selection succeeds and no row is ready,
      whatever the header repeats; and "no customer reached the minimum"
      exactly when rows are ready, no grouping key is repeated, and none
      belongs to a pair reaching the minimum. */
  lemma ProcessOutcome(t: Table, layout: Layout, manager: string, minimum: real, today: int, conv: Conversions)
    ensures var out := Process(t, layout, manager, minimum, today, conv);
      var sel := Select(t, layout, conv);
      var keys := KeyColumnsRepeated(t, layout, conv);
      && (out.Error? <==> sel.Failure? || (ReadyRows(sel.value, manager, conv) != [] && keys))
      && (sel.Failure? ==> out == Error(sel.error))
      && (sel.Success? && ReadyRows(sel.value, manager, conv) != [] && keys ==> out == Error(RepeatedKeyColumn))
      && (out == NoReadyMaterial <==> sel.Success? && ReadyRows(sel.value, manager, conv) == [])
      && (out == NoCustomerReachedMinimum <==>
            && sel.Success?
            && ReadyRows(sel.value, manager, conv) != []
            && !keys
            && forall o :: o in ReadyRows(sel.value, manager, conv) ==>
                 !Reaches(ReadyRows(sel.value, manager, conv), o, minimum))
  {
    var sel := Select(t, layout, conv);
    if sel.Success? {
      AnalyseOutcome(ReadyRows(sel.value, manager, conv), minimum, today);
    }
  }

  /** One line is in the report exactly when it is the assembly of a ready
      row whose pair reaches the minimum. */
  lemma ReportLine(ready: seq<Order>, minimum: real, today: int, r: ReportRow)
    ensures r in AssembleReport(Qualified(ready, minimum), today) <==>
      exists o :: o in ready && Reaches(ready, o, minimum) && r == AssembleRow(o, today)
  {
    var kept := Qualified(ready, minimum);
    ReportKeepsRows(kept, today);
    if r in AssembleReport(kept, today) {
      var o :| o in kept && r == AssembleRow(o, today);
      QualifiedMembership(ready, minimum, o);
    }
    if exists o :: o in ready && Reaches(ready, o, minimum) && r == AssembleRow(o, today) {
      var o :| o in ready && Reaches(ready, o, minimum) && r == AssembleRow(o, today);
      QualifiedMembership(ready, minimum, o);
    }
  }

  /** What a report line carries: an empty action, the "Situação" text
      "Atrasado" exactly when its delivery day is before `today`, and 0 days
      when on time. */
  predicate WellFormedLine(r: ReportRow, today: int) {
    && r.action == ""
    && (StatusText(r.status) == "Atrasado" <==> r.delivery.Some? && r.delivery.value < today)
    && (r.status == OnTime ==> r.daysLate == 0)
  }

  /** The report of the analysis step: exactly the assembled rows of the
      qualifying pairs, each well formed and carrying a ready row's manager. */
  lemma AnalyseReport(ready: seq<Order>, minimum: real, today: int)
    ensures var out := Analyse(ready, minimum, today);
      out.Ok? ==>
        && (forall r :: r in out.report <==>
              exists o :: o in ready && Reaches(ready, o, minimum) && r == AssembleRow(o, today))
        && (forall r :: r in out.report ==> WellFormedLine(r, today))
        && (forall r :: r in out.report ==> exists o :: o in ready && r.manager == o.manager)
  {
    var out := Analyse(ready, minimum, today);
    if out.Ok? {
      assert out.report == AssembleReport(Qualified(ready, minimum), today);
      forall r ensures r in out.report <==>
        exists o :: o in ready && Reaches(ready, o, minimum) && r == AssembleRow(o, today)
      {
        ReportLine(ready, minimum, today, r);
      }
      forall r | r in out.report
        ensures WellFormedLine(r, today) && exists o :: o in ready && r.manager == o.manager
      {
        LineFacts(ready, minimum, today, r);
      }
    }
  }

  /** One line of the analysis report is well formed and carries the manager
      of a ready row. */
  lemma LineFacts(ready: seq<Order>, minimum: real, today: int, r: ReportRow)
    requires r in AssembleReport(Qualified(ready, minimum), today)
    ensures WellFormedLine(r, today)
    ensures exists o :: o in ready && r.manager == o.manager
  {
    ReportLine(ready, minimum, today, r);
    var o :| o in ready && Reaches(ready, o, minimum) && r == AssembleRow(o, today);
  }

  /** The report holds exactly the ready rows whose pair reaches the
      minimum, each assembled: with its fields unchanged, an empty action, the
      status "Atrasado" iff its delivery day is before `today`, and a day
      count that is 0 when on time. With one manager chosen, every line is
      that manager's. */
  lemma ProcessReport(t: Table, layout: Layout, manager: string, minimum: real, today: int, conv: Conversions)
    ensures var out := Process(t, layout, manager, minimum, today, conv);
      out.Ok? ==>
        var ready := ReadyRows(Select(t, layout, conv).value, manager, conv);
        && Select(t, layout, conv).Success?
        && (forall r :: r in out.report <==>
              exists o :: o in ready && Reaches(ready, o, minimum) && r == AssembleRow(o, today))
        && (forall r :: r in out.report ==> WellFormedLine(r, today))
        && (manager != AllManagers ==> forall r :: r in out.report ==> r.manager == manager)
  {
    var out := Process(t, layout, manager, minimum, today, conv);
    if out.Ok? {
      var ready := ReadyRows(Select(t, layout, conv).value, manager, conv);
      assert !(ready != [] && KeyColumnsRepeated(t, layout, conv));
      assert out == Analyse(ready, minimum, today);
      AnalyseReport(ready, minimum, today);
    }
  }

  /** Raising the minimum never adds report lines in the analysis step. */
  lemma AnalyseThresholdMonotone(ready: seq<Order>, low: real, high: real, today: int)
    requires low <= high
    ensures var hi := Analyse(ready, high, today);
      var lo := Analyse(ready, low, today);
      hi.Ok? ==> && lo.Ok?
                 && (forall r :: r in hi.report ==> r in lo.report)
                 && |hi.report| <= |lo.report|
  {
    var hi := Analyse(ready, high, today);
    if hi.Ok? {
      ThresholdMonotone(ready, low, high);
      NoKeysIffNoRows(ready, high);
      NoKeysIffNoRows(ready, low);
      var lo := Analyse(ready, low, today);
      assert lo.Ok?;
      forall r | r in hi.report ensures r in lo.report {
        ReportLine(ready, high, today, r);
        ReportLine(ready, low, today, r);
      }
      assert hi.report == AssembleReport(Qualified(ready, high), today);
      assert lo.report == AssembleReport(Qualified(ready, low), today);
    }
  }

  /** Raising the minimum never adds report lines: if a run at `high` has a
      report, so has the run at `low`, every line of the first is a line of
      the second, and the first is no longer. */
  lemma ProcessThresholdMonotone(t: Table, layout: Layout, manager: string, low: real, high: real, today: int, conv: Conversions)
    requires low <= high
    ensures var hi := Process(t, layout, manager, high, today, conv);
      var lo := Process(t, layout, manager, low, today, conv);
      hi.Ok? ==> && lo.Ok?
                 && (forall r :: r in hi.report ==> r in lo.report)
                 && |hi.report| <= |lo.report|
  {
    var sel := Select(t, layout, conv);
    if sel.Success? && !(ReadyRows(sel.value, manager, conv) != [] && KeyColumnsRepeated(t, layout, conv)) {
      AnalyseThresholdMonotone(ReadyRows(sel.value, manager, conv), low, high, today);
    }
  }

  /** With a header layout, the run fails with "header not found" exactly
      when none of the first ten rows carries all seven labels. */
  lemma ProcessHeaderNotFound(t: Table, tonsLabel: string, manager: string, minimum: real, today: int, conv: Conversions)
    ensures Process(t, ByHeader(tonsLabel), manager, minimum, today, conv) == Error(HeaderNotFound) <==>
      forall i :: 0 <= i < ScanEnd(t) ==> !IsHeader(t, i, RequiredLabels(tonsLabel), conv)
  {
  }

  /** With a header layout, the run fails with "duplicate column" exactly
      when a header row is found and a required label other than FILIAL and
      CLIENTE names two of its columns. */
  lemma ProcessDuplicateColumn(t: Table, tonsLabel: string, manager: string, minimum: real, today: int, conv: Conversions)
    ensures var required := RequiredLabels(tonsLabel);
      var h := FindHeader(t, required, conv);
      Process(t, ByHeader(tonsLabel), manager, minimum, today, conv) == Error(DuplicateColumn) <==>
        h.Some? && RefusedRepeat(RowLabels(t, h.value, conv), required)
  {
  }

  /** With a header layout whose header row is found and refuses no repeat,
      selection succeeds: the run's only possible error is a repeated
      grouping key met by ready rows, and otherwise it reaches the analysis. */
  lemma ProcessHeaderAccepted(t: Table, tonsLabel: string, manager: string, minimum: real, today: int, conv: Conversions)
    requires var h := FindHeader(t, RequiredLabels(tonsLabel), conv);
      h.Some? && !RefusedRepeat(RowLabels(t, h.value, conv), RequiredLabels(tonsLabel))
    ensures var sel := Select(t, ByHeader(tonsLabel), conv);
      var out := Process(t, ByHeader(tonsLabel), manager, minimum, today, conv);
      && sel.Success?
      && (out.Error? <==> ReadyRows(sel.value, manager, conv) != [] && KeyColumnsRepeated(t, ByHeader(tonsLabel), conv))
      && (out.Error? ==> out == Error(RepeatedKeyColumn))
  {
  }

  /** With the fixed layout, the run fails exactly when the table has fewer
      than 30 columns or no row at all. */
  lemma ProcessFixedLayoutErrors(t: Table, manager: string, minimum: real, today: int, conv: Conversions)
    ensures var out := Process(t, ByPosition, manager, minimum, today, conv);
      && (out == Error(TooFewColumns) <==> t.width < 30)
      && (out == Error(NoRows) <==> 30 <= t.width && |t.rows| == 0)
      && (out.Error? <==> t.width < 30 || |t.rows| == 0)
  {
  }
}
