/** The readiness filter: a row is ready to ship when a lot has been
    allocated to it, optionally restricted to one manager. */
module Readiness {
  import opened Cleaning
  import opened Seqs

  /** The manager choice that disables the manager filter. */
  const AllManagers: string := "TODOS OS GERENTES"

  /** The trimmed LOTE is none of "", "nan" (an empty cell) and "0". */
  predicate HasLot(o: Order) {
    o.lot != "" && o.lot != "nan" && o.lot != "0"
  }

  /** The manager filter lets the row through. */
  predicate Selected(o: Order, manager: string) {
    manager == AllManagers || o.manager == manager
  }

  predicate ManagedBy(o: Order, manager: string) {
    o.manager == manager
  }

  /** The ready rows: those with a lot, then, unless every manager was
      chosen, those whose GERENTE equals the chosen one exactly. */
  function Ready(orders: seq<Order>, manager: string): (r: seq<Order>)
    ensures forall o :: o in r <==> o in orders && HasLot(o) && Selected(o, manager)
    ensures manager != AllManagers ==> forall o :: o in r ==> o.manager == manager
  {
    var prontos := Filter(orders, HasLot);
    if manager != AllManagers then Filter(prontos, (o: Order) => ManagedBy(o, manager)) else prontos
  }

  /** Choosing one manager keeps exactly that manager's rows of the
      all-managers result, in the same order: no ready row of that manager is
      lost and no other manager's row is added. */
  lemma ManagerRestricts(orders: seq<Order>, manager: string)
    requires manager != AllManagers
    ensures Ready(orders, manager) == Filter(Ready(orders, AllManagers), (o: Order) => ManagedBy(o, manager))
    ensures multiset(Ready(orders, manager)) <= multiset(Ready(orders, AllManagers))
  {
  }

  /** The two filters together are one filter on the conjunction, so the
      ready rows keep the order of the cleaned rows. */
  lemma ReadyIsOneFilter(orders: seq<Order>, manager: string)
    ensures Ready(orders, manager) == Filter(orders, (o: Order) => HasLot(o) && Selected(o, manager))
  {
    var both := (o: Order) => HasLot(o) && Selected(o, manager);
    if manager != AllManagers {
      FilterFilter(orders, HasLot, (o: Order) => ManagedBy(o, manager), both);
    } else {
      FilterFilter(orders, HasLot, (o: Order) => true, both);
      FilterAll(Filter(orders, HasLot), (o: Order) => true);
    }
  }
}
