/** The report assembler: rows projected and renamed to the public columns,
    an empty action column added, and the rows sorted by days late
    (descending), then manager, then customer (ascending). */
module Report {
  import opened Wrappers
  import opened Text
  import opened Cells
  import opened Cleaning
  import opened Delay

  /** One report line, in column order: Gerente, Cliente, Pedido, Tons,
      Filial, Entrega, Situação, Dias de Atraso, Ação. */
  datatype ReportRow = ReportRow(
    manager: string, customer: Cell, orderId: Cell, tons: real, branch: Cell,
    delivery: Option<int>, status: Status, daysLate: nat, action: string)

  /** One qualified order as a report line. */
  function AssembleRow(o: Order, today: int): (r: ReportRow)
    ensures r.action == ""
    ensures r.status == OnTime ==> r.daysLate == 0
  {
    var d := Classify(o.delivery, today);
    ReportRow(o.manager, o.customer, o.orderId, o.tons, o.branch, o.delivery, d.status, d.days, "")
  }

  /** Ascending position of a cell kind: numbers, then texts, then empty
      cells last. */
  function KindRank(c: Cell): nat {
    match c
    case Num(_) => 0
    case Str(_) => 1
    case Blank => 2
  }

  /** Strict ascending order of CLIENTE cells. */
  predicate CellLess(a: Cell, b: Cell) {
    || KindRank(a) < KindRank(b)
    || (a.Num? && b.Num? && a.value < b.value)
    || (a.Str? && b.Str? && Less(a.text, b.text))
  }

  predicate CellLe(a: Cell, b: Cell) {
    a == b || CellLess(a, b)
  }

  /** `a` may come before `b`: more days late first, then managers
      ascending, then customers ascending. */
  predicate RowLe(a: ReportRow, b: ReportRow) {
    || a.daysLate > b.daysLate
    || (a.daysLate == b.daysLate
        && (Less(a.manager, b.manager) || (a.manager == b.manager && CellLe(a.customer, b.customer))))
  }

  predicate Sorted(s: seq<ReportRow>) {
    forall i, j :: 0 <= i < j < |s| ==> RowLe(s[i], s[j])
  }

  lemma CellLeTotal(a: Cell, b: Cell)
    ensures CellLe(a, b) || CellLe(b, a)
  {
    if a.Str? && b.Str? {
      LessTotal(a.text, b.text);
    }
  }

  lemma CellLeTransitive(a: Cell, b: Cell, c: Cell)
    requires CellLe(a, b) && CellLe(b, c)
    ensures CellLe(a, c)
  {
    if a.Str? && b.Str? && c.Str? && Less(a.text, b.text) && Less(b.text, c.text) {
      LessTransitive(a.text, b.text, c.text);
    }
  }

  lemma RowLeTotal(a: ReportRow, b: ReportRow)
    ensures RowLe(a, b) || RowLe(b, a)
  {
    LessTotal(a.manager, b.manager);
    CellLeTotal(a.customer, b.customer);
  }

  lemma RowLeTransitive(a: ReportRow, b: ReportRow, c: ReportRow)
    requires RowLe(a, b) && RowLe(b, c)
    ensures RowLe(a, c)
  {
    if a.daysLate == b.daysLate == c.daysLate {
      if Less(a.manager, b.manager) && Less(b.manager, c.manager) {
        LessTransitive(a.manager, b.manager, c.manager);
      } else if a.manager == b.manager == c.manager {
        CellLeTransitive(a.customer, b.customer, c.customer);
      }
    }
  }

  /** Putting `h` in front of a sorted sequence keeps it sorted when `h` may
      precede each of its elements. */
  lemma SortedCons(h: ReportRow, t: seq<ReportRow>)
    requires Sorted(t)
    requires forall y :: y in t ==> RowLe(h, y)
    ensures Sorted([h] + t)
  {
    forall i, j | 0 <= i < j < |[h] + t|
      ensures RowLe(([h] + t)[i], ([h] + t)[j])
    {
      if i == 0 {
        assert ([h] + t)[j] == t[j - 1];
      } else {
        assert ([h] + t)[i] == t[i - 1] && ([h] + t)[j] == t[j - 1];
      }
    }
  }

  /** The head of a sorted sequence may precede each of its rows. */
  lemma HeadFirst(s: seq<ReportRow>)
    requires |s| > 0 && Sorted(s)
    ensures forall y :: y in s ==> RowLe(s[0], y)
  {
    forall y | y in s ensures RowLe(s[0], y) {
      var j :| 0 <= j < |s| && s[j] == y;
    }
  }

  /** `x` inserted into the sorted `s` before the first row it may precede. */
  function Insert(x: ReportRow, s: seq<ReportRow>): (r: seq<ReportRow>)
    requires Sorted(s)
    ensures Sorted(r)
    ensures multiset(r) == multiset(s) + multiset{x}
    decreases |s|
  {
    if |s| == 0 then [x]
    else if RowLe(x, s[0]) then
      HeadFirst(s);
      assert forall y :: y in s ==> RowLe(x, y) by {
        forall y | y in s ensures RowLe(x, y) {
          RowLeTransitive(x, s[0], y);
        }
      }
      SortedCons(x, s);
      [x] + s
    else
      assert s == [s[0]] + s[1..];
      var t := Insert(x, s[1..]);
      HeadFirst(s);
      assert forall y :: y in t ==> RowLe(s[0], y) by {
        forall y | y in t ensures RowLe(s[0], y) {
          assert y in multiset(t);
          if y == x {
            RowLeTotal(x, s[0]);
          } else {
            assert y in multiset(s[1..]);
          }
        }
      }
      SortedCons(s[0], t);
      [s[0]] + t
  }

  /** `sort_values(['Dias de Atraso', 'Gerente', 'Cliente'],
      ascending=[False, True, True])`: a sorted permutation of `s`. */
  function SortRows(s: seq<ReportRow>): (r: seq<ReportRow>)
    ensures Sorted(r)
    ensures multiset(r) == multiset(s)
    decreases |s|
  {
    if |s| == 0 then []
    else
      assert s == [s[0]] + s[1..];
      Insert(s[0], SortRows(s[1..]))
  }

  /** The report for the qualified rows: every row assembled, then sorted. */
  function AssembleReport(rows: seq<Order>, today: int): (report: seq<ReportRow>)
    ensures Sorted(report)
    ensures |report| == |rows|
    ensures multiset(report) == multiset(seq(|rows|, i requires 0 <= i < |rows| => AssembleRow(rows[i], today)))
  {
    var assembled := seq(|rows|, i requires 0 <= i < |rows| => AssembleRow(rows[i], today));
    var report := SortRows(assembled);
    assert |report| == |multiset(report)| == |multiset(assembled)| == |assembled|;
    report
  }

  /** The report neither drops nor invents rows, nor changes a field: its
      rows are exactly the assembled qualified rows. */
  lemma ReportKeepsRows(rows: seq<Order>, today: int)
    ensures forall r :: r in AssembleReport(rows, today) <==> exists o :: o in rows && r == AssembleRow(o, today)
  {
    var assembled := seq(|rows|, i requires 0 <= i < |rows| => AssembleRow(rows[i], today));
    var report := AssembleReport(rows, today);
    forall r ensures r in report <==> exists o :: o in rows && r == AssembleRow(o, today) {
      calc {
        r in report;
        r in multiset(report);
        r in multiset(assembled);
        r in assembled;
      }
      if r in assembled {
        var i :| 0 <= i < |assembled| && assembled[i] == r;
        assert rows[i] in rows;
      }
      if exists o :: o in rows && r == AssembleRow(o, today) {
        var o :| o in rows && r == AssembleRow(o, today);
        var i :| 0 <= i < |rows| && rows[i] == o;
        assert assembled[i] == r;
      }
    }
  }
}
