/** Row cleaning: drop the rows that identify nothing, coerce the tonnage,
    read the delivery date, and fill and trim the manager and lot texts. */
module Cleaning {
  import opened Wrappers
  import opened Text
  import opened Cells
  import opened Columns
  import opened Seqs

  /** One order line after cleaning. `branch`, `orderId` and `customer` keep
      their raw cells (FILIAL, PEDIDO, CLIENTE); `manager` is the trimmed
      GERENTE text; `lot` the trimmed LOTE text; `tons` the coerced tonnage;
      `delivery` the ENTREGA day, `None` when it does not parse. */
  datatype Order = Order(
    branch: Cell, manager: string, orderId: Cell, customer: Cell,
    lot: string, tons: real, delivery: Option<int>)

  /** The manager given to rows whose GERENTE cell is empty. */
  const NoSalesperson: string := "SEM VENDEDOR"

  /** The row names a branch, a customer or an order: `dropna(how='all')`
      over those three columns keeps it. */
  predicate Identified(r: RawRecord) {
    !(r.branch.Blank? && r.customer.Blank? && r.orderId.Blank?)
  }

  /** `to_numeric(errors='coerce').fillna(0)`. */
  function Tonnage(c: Cell, conv: Conversions): real {
    AsNumber(c, conv).GetOr(0.0)
  }

  /** `to_datetime(errors='coerce', dayfirst=True)`; an empty cell is NaT. */
  function DeliveryDay(c: Cell, conv: Conversions): Option<int> {
    if c.Blank? then None else conv.parseDay(c)
  }

  /** `fillna('SEM VENDEDOR')` then `astype(str).str.strip()`. */
  function ManagerName(c: Cell, conv: Conversions): string {
    Strip(if c.Blank? then NoSalesperson else CellText(c, conv))
  }

  /** `astype(str).str.strip()`; an empty cell becomes "nan". */
  function LotText(c: Cell, conv: Conversions): string {
    Strip(CellText(c, conv))
  }

  function ToOrder(r: RawRecord, conv: Conversions): Order {
    Order(r.branch, ManagerName(r.manager, conv), r.orderId, r.customer,
          LotText(r.lot, conv), Tonnage(r.tons, conv), DeliveryDay(r.delivery, conv))
  }

  /** The cleaned table: the identified rows, in order, each converted. */
  function Clean(recs: seq<RawRecord>, conv: Conversions): (orders: seq<Order>)
    ensures |orders| <= |recs|
    ensures forall o :: o in orders ==> Stripped(o.manager) && Stripped(o.lot)
  {
    MapFilter(recs, Identified, (r: RawRecord) => ToOrder(r, conv))
  }

  /** A cleaned row is the conversion of an identified raw row, and every
      identified raw row yields one. */
  lemma CleanMembership(recs: seq<RawRecord>, conv: Conversions, o: Order)
    ensures o in Clean(recs, conv) <==> exists r :: r in recs && Identified(r) && o == ToOrder(r, conv)
  {
  }

  /** What cleaning does to the fields of a kept row: an empty GERENTE
      becomes "SEM VENDEDOR", every GERENTE is trimmed, a tonnage that does
      not parse becomes 0 and one that does keeps its value, and an empty
      ENTREGA is undated. */
  lemma CleanedFields(r: RawRecord, conv: Conversions)
    ensures r.manager.Blank? ==> ToOrder(r, conv).manager == NoSalesperson
    ensures !r.manager.Blank? ==> ToOrder(r, conv).manager == Strip(CellText(r.manager, conv))
    ensures AsNumber(r.tons, conv).None? ==> ToOrder(r, conv).tons == 0.0
    ensures AsNumber(r.tons, conv).Some? ==> ToOrder(r, conv).tons == AsNumber(r.tons, conv).value
    ensures r.delivery.Blank? ==> ToOrder(r, conv).delivery.None?
  {
    StripKeepsStripped(NoSalesperson);
  }

  /** Cleaning works row by row: the rows kept from `a + b` are those kept
      from `a` followed by those kept from `b`. */
  lemma CleanAppend(a: seq<RawRecord>, b: seq<RawRecord>, conv: Conversions)
    ensures Clean(a + b, conv) == Clean(a, conv) + Clean(b, conv)
  {
    MapFilterAppend(a, b, Identified, (r: RawRecord) => ToOrder(r, conv));
  }

  /** A single row is dropped exactly when FILIAL, CLIENTE and PEDIDO are
      all empty, and otherwise kept, converted. */
  lemma CleanOne(r: RawRecord, conv: Conversions)
    ensures Clean([r], conv) == (if Identified(r) then [ToOrder(r, conv)] else [])
  {
    assert [r][1..] == [];
  }

  /** Cleaning is idempotent: the texts it produced are left unchanged by
      trimming them again. */
  lemma CleanIdempotent(recs: seq<RawRecord>, conv: Conversions)
    ensures forall o :: o in Clean(recs, conv) ==> Strip(o.manager) == o.manager && Strip(o.lot) == o.lot
  {
    forall o | o in Clean(recs, conv)
      ensures Strip(o.manager) == o.manager && Strip(o.lot) == o.lot
    {
      StripKeepsStripped(o.manager);
      StripKeepsStripped(o.lot);
    }
  }
}
