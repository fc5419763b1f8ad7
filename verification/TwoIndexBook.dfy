/** The two-index order book: orders by price level and, as a second copy, by id. */
module TwoIndexBook {

  datatype Order = Order(id: string, price: real, quantity: int, isBuy: bool)

  type Levels = map<real, map<string, Order>>
  type Lookup = map<string, Order>

  datatype State = State(levels: Levels, lookup: Lookup)

  datatype Op = Add(o: Order) | Modify(id: string, price: real, quantity: int) | Delete(id: string)

  /** `id` stands at price level `price`. */
  predicate AtLevel(levels: Levels, price: real, id: string) {
    price in levels && id in levels[price]
  }

  /** The lookup has `id` at `price`. */
  predicate StandsAt(lookup: Lookup, price: real, id: string) {
    id in lookup && lookup[id].price == price
  }

  /** An id is in the lookup iff it is at exactly one level, that level is its stored price, and both copies agree. */
  ghost predicate Consistent(s: State) {
    && (forall id, price :: AtLevel(s.levels, price, id) <==> StandsAt(s.lookup, price, id))
    && CopiesAgree(s)
  }

  /** Every order of the lookup stands at its level, as an equal copy. */
  ghost predicate CopiesAgree(s: State) {
    forall id :: id in s.lookup ==>
      && s.lookup[id].id == id
      && AtLevel(s.levels, s.lookup[id].price, id) && s.levels[s.lookup[id].price][id] == s.lookup[id]
  }

  // ---------- the operations on values ----------

  /** `operator[]` on the outer map creates a missing level. */
  function Level(levels: Levels, price: real): map<string, Order> {
    if price in levels then levels[price] else map[]
  }

  function PutLevel(levels: Levels, o: Order): Levels {
    levels[o.price := Level(levels, o.price)[o.id := o]]
  }

  function EraseLevel(levels: Levels, price: real, id: string): Levels {
    levels[price := Level(levels, price) - {id}]
  }

  function Put(s: State, o: Order): State {
    State(PutLevel(s.levels, o), s.lookup[o.id := o])
  }

  function Apply(s: State, op: Op): State {
    match op
    case Add(o) => Put(s, o)
    case Modify(id, price, quantity) =>
      if id !in s.lookup then s
      else
        var known := s.lookup[id];
        Put(s.(levels := EraseLevel(s.levels, known.price, id)), Order(id, price, quantity, known.isBuy))
    case Delete(id) =>
      if id !in s.lookup then s
      else State(EraseLevel(s.levels, s.lookup[id].price, id), s.lookup - {id})
  }

  const EMPTY: State := State(map[], map[])

  /** The book after a run of operations. */
  function After(ops: seq<Op>): State {
    if ops == [] then EMPTY else Apply(After(ops[..|ops| - 1]), ops[|ops| - 1])
  }

  /** A plain map from id to order after the same run. */
  function MapAfter(ops: seq<Op>): Lookup {
    if ops == [] then map[] else
    var m := MapAfter(ops[..|ops| - 1]);
    match ops[|ops| - 1]
    case Add(o) => m[o.id := o]
    case Modify(id, price, quantity) => if id in m then m[id := Order(id, price, quantity, m[id].isBuy)] else m
    case Delete(id) => m - {id}
  }

  // ---------- one operation ----------

  /** The lookup of any book, consistent or not, follows the plain map, and its orders keep equal copies at their
      levels. */
  lemma {:induction false} LookupIsMap(ops: seq<Op>)
    ensures After(ops).lookup == MapAfter(ops) && CopiesAgree(After(ops))
    ensures forall id :: id in MapAfter(ops) ==>
              var o := MapAfter(ops)[id];
              o.id == id && AtLevel(After(ops).levels, o.price, id) && After(ops).levels[o.price][id] == o
  {
    if ops != [] {
      LookupIsMap(ops[..|ops| - 1]);
      StepKeepsCopies(After(ops[..|ops| - 1]), ops[|ops| - 1]);
    }
  }

  lemma StepKeepsCopies(s: State, op: Op)
    requires CopiesAgree(s)
    ensures CopiesAgree(Apply(s, op))
  {
  }

  /** Which ids an operation leaves at which level. */
  lemma LevelsAfter(s: State, op: Op, price: real, id: string)
    requires CopiesAgree(s)
    ensures AtLevel(Apply(s, op).levels, price, id)
        <==> || StandsAt(Apply(s, op).lookup, price, id)
             || (AtLevel(s.levels, price, id) && (StandsAt(s.lookup, price, id) ==> op.Add?))
  {
  }

  /** Adding to a consistent book keeps it so exactly when the id is new or keeps its price. */
  lemma AddConsistentExactly(s: State, o: Order)
    requires Consistent(s)
    ensures Consistent(Put(s, o)) <==> o.id !in s.lookup || s.lookup[o.id].price == o.price
  {
    var s' := Apply(s, Add(o));
    if o.id in s.lookup && s.lookup[o.id].price != o.price {
      LevelsAfter(s, Add(o), s.lookup[o.id].price, o.id);
      assert AtLevel(s'.levels, s.lookup[o.id].price, o.id);
    } else {
      forall id, price ensures AtLevel(s'.levels, price, id) <==> StandsAt(s'.lookup, price, id) {
        LevelsAfter(s, Add(o), price, id);
        assert AtLevel(s.levels, price, id) <==> StandsAt(s.lookup, price, id);
      }
    }
  }

  /** Modifying and deleting keep a consistent book consistent. */
  lemma OthersKeepConsistent(s: State, op: Op)
    requires Consistent(s) && !op.Add?
    ensures Consistent(Apply(s, op))
  {
    var s' := Apply(s, op);
    forall id, price ensures AtLevel(s'.levels, price, id) <==> StandsAt(s'.lookup, price, id) {
      LevelsAfter(s, op, price, id);
      assert AtLevel(s.levels, price, id) <==> StandsAt(s.lookup, price, id);
    }
  }

  // ---------- every run ----------

  /** Some addition moved the id away from this price, and the id has not been back at it since. */
  ghost predicate LeftBehind(ops: seq<Op>, price: real, id: string) {
    exists k :: 0 <= k < |ops| && LeavesAt(ops, k, price, id)
      && forall j :: k < j <= |ops| ==> !StandsAt(MapAfter(ops[..j]), price, id)
  }

  predicate LeavesAt(ops: seq<Op>, k: nat, price: real, id: string)
    requires k < |ops|
  {
    ops[k].Add? && ops[k].o.id == id && ops[k].o.price != price && StandsAt(MapAfter(ops[..k]), price, id)
  }

  /** One more operation: what it leaves behind, or what was left behind and is not taken back. */
  lemma LeftBehindStep(ops: seq<Op>, price: real, id: string)
    requires ops != []
    ensures LeftBehind(ops, price, id)
        <==> && !StandsAt(MapAfter(ops), price, id)
             && (LeavesAt(ops, |ops| - 1, price, id) || LeftBehind(ops[..|ops| - 1], price, id))
  {
    hide MapAfter, StandsAt;
    var n := |ops| - 1;
    var pre := ops[..n];
    assert ops[..|ops|] == ops;
    assert forall j :: 0 <= j <= n ==> pre[..j] == ops[..j];
    assert forall k :: 0 <= k < n ==> (LeavesAt(pre, k, price, id) <==> LeavesAt(ops, k, price, id));
    if LeftBehind(ops, price, id) {
      var k :| 0 <= k < |ops| && LeavesAt(ops, k, price, id)
        && forall j :: k < j <= |ops| ==> !StandsAt(MapAfter(ops[..j]), price, id);
      assert k == n || LeavesAt(pre, k, price, id);
    } else if LeavesAt(ops, n, price, id) {
      assert forall j :: n < j <= |ops| ==> ops[..j] == ops;
    } else if LeftBehind(pre, price, id) {
      var k :| 0 <= k < n && LeavesAt(pre, k, price, id)
        && forall j :: k < j <= n ==> !StandsAt(MapAfter(pre[..j]), price, id);
      assert LeavesAt(ops, k, price, id);
      assert forall j :: n < j <= |ops| ==> ops[..j] == ops;
    }
  }

  /** After every run an id stands at a level exactly when the plain map has it there or an addition left it behind. */
  lemma {:induction false} LevelsExactly(ops: seq<Op>, price: real, id: string)
    ensures AtLevel(After(ops).levels, price, id)
        <==> StandsAt(MapAfter(ops), price, id) || LeftBehind(ops, price, id)
    decreases |ops|
  {
    if ops != [] {
      var pre, op := ops[..|ops| - 1], ops[|ops| - 1];
      LevelsExactly(pre, price, id);
      LookupIsMap(pre);
      LookupIsMap(ops);
      LevelsAfter(After(pre), op, price, id);
      LeftBehindStep(ops, price, id);
      NotBack(pre, price, id);
    }
  }

  lemma NotBack(ops: seq<Op>, price: real, id: string)
    ensures LeftBehind(ops, price, id) ==> !StandsAt(MapAfter(ops), price, id)
  {
    assert ops[..|ops|] == ops;
  }

  /** After every run of operations on an empty book, the two copies are in step if and only if no addition that moved a
      known id to another price still has its old level waiting for the id's return. */
  lemma RunConsistentExactly(ops: seq<Op>)
    ensures Consistent(After(ops)) <==> forall price, id :: !LeftBehind(ops, price, id)
  {
    hide MapAfter, LeftBehind, CopiesAgree, AtLevel, StandsAt, After;
    LookupIsMap(ops);
    forall price, id
      ensures AtLevel(After(ops).levels, price, id)
          <==> StandsAt(After(ops).lookup, price, id) || LeftBehind(ops, price, id)
      ensures LeftBehind(ops, price, id) ==> !StandsAt(After(ops).lookup, price, id)
    {
      LevelsExactly(ops, price, id);
      NotBack(ops, price, id);
    }
  }

  class OrderBook {
    var orderLevels: Levels
    var orderLookup: Lookup

    ghost function Contents(): State
      reads this
    {
      State(orderLevels, orderLookup)
    }

    constructor ()
      ensures Contents() == EMPTY
    {
      orderLevels, orderLookup := map[], map[];
    }

    method AddOrder(id: string, price: real, quantity: int, isBuy: bool)
      modifies this
      ensures Contents() == Apply(old(Contents()), Add(Order(id, price, quantity, isBuy)))
      ensures orderLookup == old(orderLookup)[id := Order(id, price, quantity, isBuy)]
      ensures old(Consistent(Contents())) ==>
                (Consistent(Contents()) <==> id !in old(orderLookup) || old(orderLookup)[id].price == price)
    {
      var order := Order(id, price, quantity, isBuy);
      if Consistent(Contents()) {
        AddConsistentExactly(Contents(), order);
      }
      orderLevels := PutLevel(orderLevels, order);
      orderLookup := orderLookup[id := order];
    }

    /** Replaces price and quantity of a known id, keeps its side, and ignores an unknown one. */
    method ModifyOrder(id: string, newPrice: real, newQuantity: int)
      modifies this
      ensures Contents() == Apply(old(Contents()), Modify(id, newPrice, newQuantity))
      ensures orderLookup == if id in old(orderLookup)
        then old(orderLookup)[id := Order(id, newPrice, newQuantity, old(orderLookup)[id].isBuy)] else old(orderLookup)
      ensures old(Consistent(Contents())) ==> Consistent(Contents())
    {
      if Consistent(Contents()) {
        OthersKeepConsistent(Contents(), Modify(id, newPrice, newQuantity));
      }
      if id in orderLookup {
        var oldOrder := orderLookup[id];
        orderLevels := EraseLevel(orderLevels, oldOrder.price, id);
        AddOrder(id, newPrice, newQuantity, oldOrder.isBuy);
      }
    }

    method DeleteOrder(id: string)
      modifies this
      ensures Contents() == Apply(old(Contents()), Delete(id))
      ensures orderLookup == old(orderLookup) - {id}
      ensures old(Consistent(Contents())) ==> Consistent(Contents())
    {
      if Consistent(Contents()) {
        OthersKeepConsistent(Contents(), Delete(id));
      }
      if id in orderLookup {
        var order := orderLookup[id];
        orderLevels := EraseLevel(orderLevels, order.price, id);
        orderLookup := orderLookup - {id};
      }
    }
  }
}
