/** The delay classifier: each delivery day compared with an injected
    "today", both as day numbers. */
module Delay {
  import opened Wrappers

  /** "Atrasado" (overdue) or "No Prazo" (on time). */
  datatype Status = Overdue | OnTime

  function StatusText(s: Status): string {
    match s
    case Overdue => "Atrasado"
    case OnTime => "No Prazo"
  }

  /** The "Situação" and "Dias de Atraso" of one row. */
  datatype Delay = Delay(status: Status, days: nat)

  /** A row is overdue iff its delivery day is strictly before `today`; an
      undated row (NaT) compares false and is on time. The day count is the
      difference when overdue and is then forced to 0 otherwise. */
  function Classify(delivery: Option<int>, today: int): (d: Delay)
    ensures d.status == Overdue <==> delivery.Some? && delivery.value < today
    ensures d.status == Overdue ==> d.days == today - delivery.value
    ensures d.days > 0 <==> d.status == Overdue
  {
    var overdue := delivery.Some? && delivery.value < today;
    var elapsed: Option<int> := if delivery.Some? then Some(today - delivery.value) else None;
    if overdue then Delay(Overdue, elapsed.value) else Delay(OnTime, 0)
  }

  /** A delivery due yesterday is one day late; one due today is on time
      with no delay; an undated row is on time with no delay. */
  lemma ClassifyExamples(today: int)
    ensures Classify(Some(today - 1), today) == Delay(Overdue, 1)
    ensures Classify(Some(today), today) == Delay(OnTime, 0)
    ensures Classify(None, today) == Delay(OnTime, 0)
  {
  }

  /** As `today` advances, a row never becomes less late and an overdue row
      stays overdue. */
  lemma DelayGrowsWithToday(delivery: Option<int>, earlier: int, later: int)
    requires earlier <= later
    ensures Classify(delivery, earlier).days <= Classify(delivery, later).days
    ensures Classify(delivery, earlier).status == Overdue ==> Classify(delivery, later).status == Overdue
  {
  }
}
