/** The volume qualifier: tonnage summed per (FILIAL, CLIENTE) pair, and
    the inner semi-join that keeps every ready row of a pair whose total
    reaches the minimum. */
module Volume {
  import opened Wrappers
  import opened Cells
  import opened Cleaning
  import opened Seqs

  /** A (FILIAL, CLIENTE) pair, compared by cell value. */
  datatype Key = Key(branch: Cell, customer: Cell)

  function KeyOf(o: Order): Key {
    Key(o.branch, o.customer)
  }

  /** `groupby` leaves out a pair with an empty part. */
  predicate Groupable(k: Key) {
    !k.branch.Blank? && !k.customer.Blank?
  }

  /** Reference definition: the total tonnage of the rows with key `k`. */
  function GroupSum(rows: seq<Order>, k: Key): real {
    if |rows| == 0 then 0.0
    else (if KeyOf(rows[0]) == k then rows[0].tons else 0.0) + GroupSum(rows[1..], k)
  }

  /** A key no row carries sums to zero. */
  lemma {:induction false} GroupSumAbsent(rows: seq<Order>, k: Key)
    requires forall o :: o in rows ==> KeyOf(o) != k
    ensures GroupSum(rows, k) == 0.0
    decreases |rows|
  {
    if |rows| > 0 {
      GroupSumAbsent(rows[1..], k);
    }
  }

  /** Some row of `rows` carries the key `k`. */
  predicate HasKey(rows: seq<Order>, k: Key) {
    exists o :: o in rows && KeyOf(o) == k
  }

  lemma HasKeyCons(rows: seq<Order>)
    requires |rows| > 0
    ensures forall k :: HasKey(rows, k) <==> KeyOf(rows[0]) == k || HasKey(rows[1..], k)
  {
    assert rows == [rows[0]] + rows[1..];
    forall k | HasKey(rows, k) && KeyOf(rows[0]) != k ensures HasKey(rows[1..], k) {
      var o :| o in rows && KeyOf(o) == k;
      assert o in rows[1..];
    }
  }

  /** `groupby(['FILIAL', 'CLIENTE'])[tons].sum()`: one entry per groupable
      key present in `rows`, holding that key's total. */
  function Totals(rows: seq<Order>): (m: map<Key, real>)
    ensures forall k :: k in m <==> Groupable(k) && HasKey(rows, k)
    ensures forall k :: k in m ==> m[k] == GroupSum(rows, k)
    decreases |rows|
  {
    if |rows| == 0 then map[]
    else
      var rest := Totals(rows[1..]);
      var k := KeyOf(rows[0]);
      HasKeyCons(rows);
      if !Groupable(k) then rest
      else if k in rest then rest[k := rows[0].tons + rest[k]]
      else
        GroupSumAbsent(rows[1..], k);
        rest[k := rows[0].tons]
  }

  /** The pairs whose total reaches the minimum (`clientes_filtrados`). */
  function QualifyingKeys(rows: seq<Order>, minimum: real): (keys: set<Key>)
    ensures forall k :: k in keys <==>
      Groupable(k) && (exists o :: o in rows && KeyOf(o) == k) && GroupSum(rows, k) >= minimum
  {
    var m := Totals(rows);
    set k | k in m && m[k] >= minimum
  }

  predicate KeyIn(o: Order, keys: set<Key>) {
    KeyOf(o) in keys
  }

  /** The inner merge on (FILIAL, CLIENTE): the rows whose pair is one of
      `keys`, in their original order. */
  function SemiJoin(rows: seq<Order>, keys: set<Key>): seq<Order> {
    Filter(rows, (o: Order) => KeyIn(o, keys))
  }

  /** The rows that survive the volume qualifier. */
  function Qualified(rows: seq<Order>, minimum: real): (r: seq<Order>)
    ensures multiset(r) <= multiset(rows)
    ensures forall o :: o in r <==> o in rows && KeyIn(o, QualifyingKeys(rows, minimum))
  {
    SemiJoin(rows, QualifyingKeys(rows, minimum))
  }

  /** Semi-join correctness: a ready row survives iff its pair is groupable
      and the tonnage of all ready rows sharing the pair reaches the minimum.
      The row's own tonnage plays no other part. */
  lemma QualifiedMembership(rows: seq<Order>, minimum: real, o: Order)
    ensures o in Qualified(rows, minimum) <==>
      o in rows && Groupable(KeyOf(o)) && GroupSum(rows, KeyOf(o)) >= minimum
  {
  }

  /** A pair survives as a whole: if one of its rows survives, all do. */
  lemma QualifiedWholeGroups(rows: seq<Order>, minimum: real, o: Order, o': Order)
    requires o in Qualified(rows, minimum) && o' in rows && KeyOf(o') == KeyOf(o)
    ensures o' in Qualified(rows, minimum)
  {
    QualifiedMembership(rows, minimum, o);
    QualifiedMembership(rows, minimum, o');
  }

  /** No qualifying pair exactly when no row survives the merge: the "no
      customer reached the minimum" outcome can be decided either way. */
  lemma NoKeysIffNoRows(rows: seq<Order>, minimum: real)
    ensures QualifyingKeys(rows, minimum) == {} <==> Qualified(rows, minimum) == []
  {
    var keys := QualifyingKeys(rows, minimum);
    if Qualified(rows, minimum) != [] {
      assert Qualified(rows, minimum)[0] in Qualified(rows, minimum);
    }
    if keys != {} {
      var k :| k in keys;
      var o :| o in rows && KeyOf(o) == k;
      assert o in Qualified(rows, minimum);
    }
  }

  /** Raising the minimum never adds rows: every row kept at the higher
      minimum is kept at the lower one. */
  lemma {:induction false} ThresholdMonotone(rows: seq<Order>, low: real, high: real)
    requires low <= high
    ensures QualifyingKeys(rows, high) <= QualifyingKeys(rows, low)
    ensures multiset(Qualified(rows, high)) <= multiset(Qualified(rows, low))
    ensures |Qualified(rows, high)| <= |Qualified(rows, low)|
  {
    var hi := QualifyingKeys(rows, high);
    var lo := QualifyingKeys(rows, low);
    FilterWeaker(rows, (o: Order) => KeyIn(o, hi), (o: Order) => KeyIn(o, lo));
  }

  /** A row of zero tons survives when its pair's total reaches the minimum:
      a 30-ton row and a 0-ton row of the same pair both pass a 28-ton bar. */
  lemma ZeroTonRowSurvives(branch: string, customer: string)
    ensures var heavy := Order(Str(branch), "ANA", Num(1.0), Str(customer), "L1", 30.0, None);
      var empty := Order(Str(branch), "ANA", Num(2.0), Str(customer), "L2", 0.0, None);
      Qualified([heavy, empty], 28.0) == [heavy, empty]
  {
    var heavy := Order(Str(branch), "ANA", Num(1.0), Str(customer), "L1", 30.0, None);
    var empty := Order(Str(branch), "ANA", Num(2.0), Str(customer), "L2", 0.0, None);
    var rows := [heavy, empty];
    var k := KeyOf(heavy);
    assert GroupSum(rows, k) == 30.0 by {
      assert rows[1..] == [empty];
      assert [empty][1..] == [];
      assert GroupSum([empty], k) == 0.0 + GroupSum([], k);
      assert GroupSum(rows, k) == 30.0 + GroupSum([empty], k);
    }
    QualifiedMembership(rows, 28.0, heavy);
    QualifiedMembership(rows, 28.0, empty);
    FilterAll(rows, (o: Order) => KeyIn(o, QualifyingKeys(rows, 28.0)));
  }
}
