/** How the pool, the index and the two multimaps together represent a book, as a relation on values. */
module Layout {
  import opened Orders
  import opened Matching
  import opened BookOps
  import opened Pool

  /** A multimap node; its order is owned by the node, so the order also identifies the node. */
  datatype Entry = Entry(key: real, order: Order)

  /** Everything the book object keeps: the slots and what is stored in them, which are used, the id index and the
      nodes of the two multimaps in iteration order. */
  datatype Snapshot = Snapshot(slots: seq<Order>, store: seq<Rec>, used: seq<bool>, index: map<int, Order>,
                               buys: seq<Entry>, sells: seq<Entry>)

  function Nodes(w: Snapshot, buy: bool): seq<Entry> {
    if buy then w.buys else w.sells
  }

  function Keys(s: seq<Entry>): (r: seq<real>)
    ensures |r| == |s| && forall i :: 0 <= i < |s| ==> r[i] == s[i].key
  {
    seq(|s|, i requires 0 <= i < |s| => s[i].key)
  }

  function Pointers(s: seq<Entry>): (r: seq<Order>)
    ensures |r| == |s| && forall i :: 0 <= i < |s| ==> r[i] == s[i].order
  {
    seq(|s|, i requires 0 <= i < |s| => s[i].order)
  }

  /** The place of the node an iterator points to. */
  function NodeOf(s: seq<Entry>, order: Order): (k: nat)
    ensures k <= |s| && (forall i :: 0 <= i < k ==> s[i].order != order) && (k < |s| ==> s[k].order == order)
  {
    IndexOf(Pointers(s), order)
  }

  ghost predicate Shaped(w: Snapshot) {
    |w.slots| == |w.store| == |w.used| && forall k :: 0 <= k < |w.slots| ==> w.slots[k].slot == k
  }

  /** The entry's order is stored in a used slot, holds `r`, and is where the index leads for its id. */
  ghost predicate EntryHolds(w: Snapshot, e: Entry, r: Rec)
    requires Shaped(w)
  {
    && e.key == r.price
    && e.order.slot < |w.slots| && w.slots[e.order.slot] == e.order
    && w.used[e.order.slot] && w.store[e.order.slot] == r
    && r.id in w.index && w.index[r.id] == e.order
  }

  ghost predicate SideHolds(w: Snapshot, s: seq<Entry>, rs: seq<Rec>)
    requires Shaped(w)
  {
    |s| == |rs| && forall i :: 0 <= i < |s| ==> EntryHolds(w, s[i], rs[i])
  }

  /** A used slot stores an order that the index knows, at that slot. */
  ghost predicate UsedIsIndexed(w: Snapshot)
    requires Shaped(w)
  {
    forall k :: 0 <= k < |w.slots| && w.used[k] ==> w.store[k].id in w.index && w.index[w.store[k].id] == w.slots[k]
  }

  /** The multimaps hold the book, the index has exactly the resting ids, and the used slots are exactly those of
      resting orders, as many as there are resting orders. */
  ghost predicate Holds(w: Snapshot, b: Book) {
    && Shaped(w) && WellFormed(b)
    && SideHolds(w, w.buys, b.bids) && SideHolds(w, w.sells, b.asks)
    && (forall id :: id in w.index <==> IsResting(b, id))
    && UsedIsIndexed(w)
    && Used(w.used) == Size(b)
  }

  /** What a caller reads off without looking inside. */
  lemma HoldsFacts(w: Snapshot, b: Book)
    requires Holds(w, b)
    ensures WellFormed(b) && |w.slots| == |w.store| && Used(w.used) == Size(b)
    ensures |w.buys| == |b.bids| && |w.sells| == |b.asks|
    ensures forall id :: id in w.index <==> IsResting(b, id)
  {
  }

  /** The index is a bijection onto the resting orders: each id leads to an order of that id, to its node on its own
      side and to a slot no other order uses; and every used slot is reached. */
  lemma IndexIsBijection(w: Snapshot, b: Book)
    requires Holds(w, b)
    ensures forall id :: id in w.index <==> IsResting(b, id)
    ensures forall id :: id in w.index ==> Reached(w, b, id)
    ensures forall id, id' :: id in w.index && id' in w.index && id != id' ==> w.index[id].slot != w.index[id'].slot
    ensures forall k :: 0 <= k < |w.slots| && w.used[k] ==>
              w.store[k].id in w.index && w.index[w.store[k].id] == w.slots[k]
    ensures Used(w.used) == Size(b)
  {
    forall id | id in w.index ensures Reached(w, b, id) {
      var i, j := Position(b.bids, id), Position(b.asks, id);
      assert i < |b.bids| ==> EntryHolds(w, w.buys[i], b.bids[i]);
      assert j < |b.asks| ==> EntryHolds(w, w.sells[j], b.asks[j]);
      NodeAt(w, b, id, i < |b.bids|);
    }
  }

  ghost predicate Reached(w: Snapshot, b: Book, id: int)
    requires id in w.index && |w.buys| == |b.bids| && |w.sells| == |b.asks|
  {
    var k := w.index[id].slot;
    && k < |w.slots| && k < |w.store| && k < |w.used| && w.slots[k] == w.index[id] && w.used[k]
    && w.store[k].id == id
    && var i := NodeOf(Nodes(w, w.store[k].isBuy), w.index[id]);
       i < |Nodes(w, w.store[k].isBuy)| && Side(b, w.store[k].isBuy)[i] == w.store[k]
  }

  lemma NodeAt(w: Snapshot, b: Book, id: int, buy: bool)
    requires Holds(w, b) && Position(Side(b, buy), id) < |Side(b, buy)|
    ensures id in w.index && NodeOf(Nodes(w, buy), w.index[id]) == Position(Side(b, buy), id)
  {
    var k := Position(Side(b, buy), id);
    assert EntryHolds(w, Nodes(w, buy)[k], Side(b, buy)[k]);
    NodeUnique(w, Nodes(w, buy), Side(b, buy), k);
  }

  // ---------- adding ----------

  function Added(w: Snapshot, r: Rec, k: nat): Snapshot
    requires k < |w.slots| == |w.store| == |w.used|
  {
    var e := Entry(r.price, w.slots[k]);
    Snapshot(w.slots, w.store[k := r], w.used[k := true], w.index[r.id := w.slots[k]],
             if r.isBuy then InsertAt(w.buys, UpperBound(Keys(w.buys), r.price, true), e) else w.buys,
             if r.isBuy then w.sells else InsertAt(w.sells, UpperBound(Keys(w.sells), r.price, false), e))
  }

  /** The parts of the snapshot after an addition. */
  lemma AddedIs(w: Snapshot, r: Rec, k: nat, w': Snapshot)
    requires k < |w.slots| == |w.store| == |w.used|
    requires w'.slots == w.slots && w'.store == w.store[k := r] && w'.used == w.used[k := true]
    requires w'.index == w.index[r.id := w.slots[k]]
    requires w'.buys == if r.isBuy
      then InsertAt(w.buys, UpperBound(Keys(w.buys), r.price, true), Entry(r.price, w.slots[k])) else w.buys
    requires w'.sells == if r.isBuy then w.sells
      else InsertAt(w.sells, UpperBound(Keys(w.sells), r.price, false), Entry(r.price, w.slots[k]))
    ensures w' == Added(w, r, k)
  {
  }

  lemma AddKeepsEntry(w: Snapshot, r: Rec, k: nat, e: Entry, x: Rec)
    requires Shaped(w) && k < |w.slots| && !w.used[k] && EntryHolds(w, e, x) && x.id != r.id
    ensures EntryHolds(Added(w, r, k), e, x)
  {
  }

  lemma AddSide(w: Snapshot, r: Rec, k: nat, s: seq<Entry>, rs: seq<Rec>)
    requires Shaped(w) && k < |w.slots| && !w.used[k] && SideHolds(w, s, rs)
    requires forall i :: 0 <= i < |rs| ==> rs[i].id != r.id
    ensures SideHolds(Added(w, r, k), s, rs)
    ensures SideHolds(Added(w, r, k), InsertAt(s, UpperBound(Keys(s), r.price, r.isBuy), Entry(r.price, w.slots[k])),
                      Insert(rs, r))
  {
    var w', p, e := Added(w, r, k), UpperBound(Keys(s), r.price, r.isBuy), Entry(r.price, w.slots[k]);
    KeysArePrices(w, s, rs);
    hide EntryHolds, InsertAt, UpperBound, Added;
    AddedShaped(w, r, k);
    NewEntryHolds(w, r, k);
    forall i | 0 <= i < |s| ensures EntryHolds(w', s[i], rs[i]) {
      AddKeepsEntry(w, r, k, s[i], rs[i]);
    }
    InsertAtElements(s, p, e, 0);
    InsertAtElements(rs, p, r, 0);
    forall i | 0 <= i <= |s| ensures EntryHolds(w', InsertAt(s, p, e)[i], InsertAt(rs, p, r)[i]) {
      InsertAtElements(s, p, e, i);
      InsertAtElements(rs, p, r, i);
    }
  }

  lemma AddedShaped(w: Snapshot, r: Rec, k: nat)
    requires Shaped(w) && k < |w.slots|
    ensures Shaped(Added(w, r, k))
  {
  }

  lemma NewEntryHolds(w: Snapshot, r: Rec, k: nat)
    requires Shaped(w) && k < |w.slots|
    ensures EntryHolds(Added(w, r, k), Entry(r.price, w.slots[k]), r)
  {
  }

  lemma KeysArePrices(w: Snapshot, s: seq<Entry>, rs: seq<Rec>)
    requires Shaped(w) && SideHolds(w, s, rs)
    ensures Keys(s) == Prices(rs)
  {
    assert forall i :: 0 <= i < |s| ==> EntryHolds(w, s[i], rs[i]);
  }

  lemma InsertHas(s: seq<Rec>, r: Rec, id: int)
    ensures Position(Insert(s, r), id) < |Insert(s, r)| <==> id == r.id || Position(s, id) < |s|
  {
    var p, i, j := UpperBound(Prices(s), r.price, r.isBuy), Position(s, id), Position(Insert(s, r), id);
    InsertAtElements(s, p, r, p);
    if i < |s| {
      InsertAtElements(s, p, r, if i < p then i else i + 1);
    }
    if j < |Insert(s, r)| {
      InsertAtElements(s, p, r, j);
    }
  }

  lemma AddIndexed(w: Snapshot, b: Book, r: Rec, k: nat)
    requires Shaped(w) && k < |w.slots| && (forall id :: id in w.index <==> IsResting(b, id))
    ensures forall id :: id in Added(w, r, k).index <==> IsResting(AddOrder(b, r), id)
  {
    forall id ensures id in Added(w, r, k).index <==> IsResting(AddOrder(b, r), id) {
      InsertHas(if r.isBuy then b.bids else b.asks, r, id);
    }
  }

  lemma AddUsed(w: Snapshot, r: Rec, k: nat)
    requires Shaped(w) && k < |w.slots| && !w.used[k] && UsedIsIndexed(w) && r.id !in w.index
    ensures Shaped(Added(w, r, k)) && UsedIsIndexed(Added(w, r, k)) && Used(Added(w, r, k).used) == Used(w.used) + 1
  {
    UsedUpdate(w.used, k, true);
  }

  lemma AddSides(w: Snapshot, b: Book, r: Rec, k: nat)
    requires Shaped(w) && SideHolds(w, w.buys, b.bids) && SideHolds(w, w.sells, b.asks)
    requires !IsResting(b, r.id) && k < |w.slots| && !w.used[k]
    ensures var w', b' := Added(w, r, k), AddOrder(b, r);
            SideHolds(w', w'.buys, b'.bids) && SideHolds(w', w'.sells, b'.asks)
  {
    NotResting(b, r.id);
    AddSide(w, r, k, w.buys, b.bids);
    AddSide(w, r, k, w.sells, b.asks);
  }

  lemma AddHolds(w: Snapshot, b: Book, r: Rec, k: nat)
    requires Holds(w, b) && !IsResting(b, r.id) && k < |w.slots| && !w.used[k]
    ensures Holds(Added(w, r, k), AddOrder(b, r))
  {
    AddWellFormed(b, r);
    AddSides(w, b, r, k);
    AddUsed(w, r, k);
    AddIndexed(w, b, r, k);
  }

  // ---------- removing ----------

  function Removed(w: Snapshot, id: int, order: Order, buy: bool): Snapshot
    requires order.slot < |w.used|
    requires NodeOf(Nodes(w, buy), order) < |Nodes(w, buy)|
  {
    Snapshot(w.slots, w.store, w.used[order.slot := false], w.index - {id},
             if buy then DropAt(w.buys, NodeOf(w.buys, order)) else w.buys,
             if buy then w.sells else DropAt(w.sells, NodeOf(w.sells, order)))
  }

  lemma NodeUnique(w: Snapshot, s: seq<Entry>, rs: seq<Rec>, k: nat)
    requires Shaped(w) && SideHolds(w, s, rs) && DistinctIds(rs) && k < |s|
    ensures NodeOf(s, s[k].order) == k
  {
    var j := NodeOf(s, s[k].order);
    assert j <= k && EntryHolds(w, s[j], rs[j]) && EntryHolds(w, s[k], rs[k]);
  }

  lemma RemoveKeepsEntry(w: Snapshot, order: Order, id: int, buy: bool, e: Entry, x: Rec)
    requires Shaped(w) && EntryHolds(w, e, x) && x.id != id
    requires order.slot < |w.slots| && w.slots[order.slot] == order && w.store[order.slot].id == id
    requires NodeOf(Nodes(w, buy), order) < |Nodes(w, buy)|
    ensures EntryHolds(Removed(w, id, order, buy), e, x)
  {
  }

  lemma DropAtElements<T>(s: seq<T>, k: nat)
    requires k < |s|
    ensures |DropAt(s, k)| == |s| - 1
    ensures forall i :: 0 <= i < |s| - 1 ==> DropAt(s, k)[i] == s[if i < k then i else i + 1]
  {
  }

  /** Entries of orders with other ids survive the removal. */
  lemma RemoveOtherSide(w: Snapshot, order: Order, id: int, buy: bool, s: seq<Entry>, rs: seq<Rec>)
    requires Shaped(w) && SideHolds(w, s, rs)
    requires order.slot < |w.slots| && w.slots[order.slot] == order && w.store[order.slot].id == id
    requires NodeOf(Nodes(w, buy), order) < |Nodes(w, buy)|
    requires forall i :: 0 <= i < |rs| ==> rs[i].id != id
    ensures SideHolds(Removed(w, id, order, buy), s, rs)
  {
    forall i | 0 <= i < |s| ensures EntryHolds(Removed(w, id, order, buy), s[i], rs[i]) {
      assert EntryHolds(w, s[i], rs[i]);
      RemoveKeepsEntry(w, order, id, buy, s[i], rs[i]);
    }
  }

  /** On the order's own side, what is left after dropping its node. */
  lemma RemoveOwnSide(w: Snapshot, order: Order, id: int, buy: bool, s: seq<Entry>, rs: seq<Rec>, k: nat)
    requires Shaped(w) && SideHolds(w, s, rs) && k < |s|
    requires order.slot < |w.slots| && w.slots[order.slot] == order && w.store[order.slot].id == id
    requires NodeOf(Nodes(w, buy), order) < |Nodes(w, buy)|
    requires forall i :: 0 <= i < |rs| && i != k ==> rs[i].id != id
    ensures SideHolds(Removed(w, id, order, buy), DropAt(s, k), DropAt(rs, k))
  {
    hide EntryHolds, NodeOf;
    DropAtElements(s, k);
    DropAtElements(rs, k);
    forall i | 0 <= i < |s| - 1 ensures EntryHolds(Removed(w, id, order, buy), DropAt(s, k)[i], DropAt(rs, k)[i]) {
      var j := if i < k then i else i + 1;
      assert EntryHolds(w, s[j], rs[j]);
      RemoveKeepsEntry(w, order, id, buy, s[j], rs[j]);
    }
  }

  lemma DropHas(s: seq<Rec>, k: nat, id: int)
    requires DistinctIds(s) && k < |s|
    ensures Position(DropAt(s, k), id) < |s| - 1 <==> id != s[k].id && Position(s, id) < |s|
  {
    var i, j := Position(s, id), Position(DropAt(s, k), id);
    assert forall m :: 0 <= m < |s| - 1 ==> DropAt(s, k)[m] == s[if m < k then m else m + 1];
    if i < |s| && i != k {
      assert DropAt(s, k)[if i < k then i else i - 1].id == id;
    }
  }

  lemma RemoveIndexed(w: Snapshot, b: Book, id: int, buy: bool, k: nat)
    requires WellFormed(b) && (forall x :: x in w.index <==> IsResting(b, x))
    requires var rs := Side(b, buy); k < |rs| && rs[k].id == id
    ensures forall x :: x in w.index - {id} <==> IsResting(RemoveOrder(b, id), x)
  {
    hide IsResting, RemoveOrder, WellFormed;
    forall x ensures x in w.index - {id} <==> IsResting(RemoveOrder(b, id), x) {
      RemoveRests(b, id, buy, k, x);
    }
  }

  lemma RemoveRests(b: Book, id: int, buy: bool, k: nat, x: int)
    requires WellFormed(b)
    requires var rs := Side(b, buy); k < |rs| && rs[k].id == id
    ensures IsResting(RemoveOrder(b, id), x) <==> x != id && IsResting(b, x)
  {
    PositionUnique(Side(b, buy), id, k);
    NotRestingElsewhere(b, id, buy);
    DropHas(Side(b, buy), k, x);
    hide WellFormed, Position;
  }

  lemma RemoveUsed(w: Snapshot, id: int, order: Order, buy: bool)
    requires Shaped(w) && UsedIsIndexed(w)
    requires order.slot < |w.slots| && w.slots[order.slot] == order
    requires w.used[order.slot] && w.store[order.slot].id == id
    requires NodeOf(Nodes(w, buy), order) < |Nodes(w, buy)|
    ensures var w' := Removed(w, id, order, buy);
            Shaped(w') && UsedIsIndexed(w') && Used(w'.used) == Used(w.used) - 1
  {
    UsedUpdate(w.used, order.slot, false);
    var w' := Removed(w, id, order, buy);
    forall k | 0 <= k < |w'.slots| && w'.used[k]
      ensures w'.store[k].id in w'.index && w'.index[w'.store[k].id] == w'.slots[k]
    {
      assert w.index[w.store[order.slot].id] == order;
      assert w.index[w.store[k].id] == w.slots[k] && w.slots[k].slot == k;
    }
  }

  lemma RemoveSides(w: Snapshot, b: Book, id: int, buy: bool, k: nat)
    requires Shaped(w) && WellFormed(b) && SideHolds(w, w.buys, b.bids) && SideHolds(w, w.sells, b.asks)
    requires var rs := Side(b, buy); k < |rs| && rs[k].id == id
    ensures id in w.index && var order := w.index[id];
            && order.slot < |w.slots| && w.slots[order.slot] == order && w.used[order.slot]
            && w.store[order.slot].id == id && w.store[order.slot].isBuy == buy
            && NodeOf(Nodes(w, buy), order) == k < |Nodes(w, buy)|
            && var w', b' := Removed(w, id, order, buy), RemoveOrder(b, id);
            SideHolds(w', w'.buys, b'.bids) && SideHolds(w', w'.sells, b'.asks)
  {
    var s, rs := Nodes(w, buy), Side(b, buy);
    assert EntryHolds(w, s[k], rs[k]);
    var order := w.index[id];
    NodeUnique(w, s, rs, k);
    PositionUnique(rs, id, k);
    NotRestingElsewhere(b, id, buy);
    if buy {
      RemoveOwnSide(w, order, id, buy, w.buys, b.bids, k);
      RemoveOtherSide(w, order, id, buy, w.sells, b.asks);
    } else {
      RemoveOtherSide(w, order, id, buy, w.buys, b.bids);
      RemoveOwnSide(w, order, id, buy, w.sells, b.asks, k);
    }
  }

  /** Removing the order at position `k` of a side: the index leads to its slot and its node, and what is left holds the
      book without it. */
  lemma RemoveHolds(w: Snapshot, b: Book, id: int, buy: bool, k: nat)
    requires Holds(w, b)
    requires var rs := Side(b, buy); k < |rs| && rs[k].id == id
    ensures id in w.index && var order := w.index[id];
            && order.slot < |w.slots| && w.slots[order.slot] == order && w.used[order.slot]
            && w.store[order.slot].id == id && w.store[order.slot].isBuy == buy
            && NodeOf(Nodes(w, buy), order) < |Nodes(w, buy)|
            && Holds(Removed(w, id, order, buy), RemoveOrder(b, id))
  {
    RemoveSides(w, b, id, buy, k);
    RemoveUsed(w, id, w.index[id], buy);
    RemoveIndexed(w, b, id, buy, k);
    RemoveWellFormed(b, id);
    PositionUnique(Side(b, buy), id, k);
  }

  lemma NotRestingElsewhere(b: Book, id: int, buy: bool)
    requires WellFormed(b)
    requires var rs := Side(b, buy); Position(rs, id) < |rs|
    ensures var rs' := if buy then b.asks else b.bids; Position(rs', id) == |rs'|
  {
  }

  // ---------- filling in place ----------

  function FillHead(rs: seq<Rec>, n: int): seq<Rec>
    requires rs != []
  {
    [Fill(rs[0], n)] + rs[1..]
  }

  function FillBest(b: Book, n: int, buy: bool): Book
    requires Side(b, buy) != []
  {
    if buy then b.(bids := FillHead(b.bids, n)) else b.(asks := FillHead(b.asks, n))
  }

  function FillSlot(w: Snapshot, k: nat, n: int): Snapshot
    requires k < |w.store|
  {
    w.(store := w.store[k := Fill(w.store[k], n)])
  }

  lemma FillBestShape(b: Book, n: int, buy: bool)
    requires WellFormed(b) && Side(b, buy) != []
    ensures WellFormed(FillBest(b, n, buy))
  {
  }

  lemma FillHeadIds(rs: seq<Rec>, n: int)
    requires rs != []
    ensures forall id :: Position(FillHead(rs, n), id) == Position(rs, id)
  {
    assert Ids(FillHead(rs, n)) == Ids(rs);
  }

  lemma FillSlotIndexed(w: Snapshot, k: nat, n: int)
    requires Shaped(w) && k < |w.store| && UsedIsIndexed(w)
    ensures Shaped(FillSlot(w, k, n)) && UsedIsIndexed(FillSlot(w, k, n))
  {
  }

  /** Filling the stored order of a slot leaves a side that does not use the slot as it is. */
  lemma FillOtherSide(w: Snapshot, k: nat, n: int, s: seq<Entry>, rs: seq<Rec>)
    requires Shaped(w) && k < |w.store| && SideHolds(w, s, rs)
    requires forall i :: 0 <= i < |s| ==> s[i].order.slot != k
    ensures Shaped(FillSlot(w, k, n)) && SideHolds(FillSlot(w, k, n), s, rs)
  {
    forall i | 0 <= i < |s| ensures EntryHolds(FillSlot(w, k, n), s[i], rs[i]) {
      assert EntryHolds(w, s[i], rs[i]);
    }
  }

  /** Filling the stored order of the head's slot fills the head of the side. */
  lemma FillOwnSide(w: Snapshot, k: nat, n: int, s: seq<Entry>, rs: seq<Rec>)
    requires Shaped(w) && k < |w.store| && SideHolds(w, s, rs) && s != []
    requires forall i :: 0 <= i < |s| ==> (s[i].order.slot == k <==> i == 0)
    ensures Shaped(FillSlot(w, k, n)) && SideHolds(FillSlot(w, k, n), s, FillHead(rs, n))
  {
    forall i | 0 <= i < |s| ensures EntryHolds(FillSlot(w, k, n), s[i], FillHead(rs, n)[i]) {
      assert EntryHolds(w, s[i], rs[i]);
    }
  }

  /** Only the head of its side sits in the head's slot. */
  lemma HeadSlot(w: Snapshot, b: Book, buy: bool)
    requires Shaped(w) && WellFormed(b) && SideHolds(w, w.buys, b.bids) && SideHolds(w, w.sells, b.asks)
    requires Side(b, buy) != []
    ensures var k := Nodes(w, buy)[0].order.slot;
            && k < |w.store| && w.store[k] == Side(b, buy)[0]
            && (forall i :: 0 <= i < |w.buys| ==> (w.buys[i].order.slot == k <==> buy && i == 0))
            && (forall i :: 0 <= i < |w.sells| ==> (w.sells[i].order.slot == k <==> !buy && i == 0))
  {
    assert EntryHolds(w, Nodes(w, buy)[0], Side(b, buy)[0]);
    forall i | 0 <= i < |w.buys| ensures EntryHolds(w, w.buys[i], b.bids[i]) {
    }
    forall i | 0 <= i < |w.sells| ensures EntryHolds(w, w.sells[i], b.asks[i]) {
    }
  }

  lemma FillBestSides(w: Snapshot, b: Book, n: int, buy: bool)
    requires Shaped(w) && WellFormed(b) && SideHolds(w, w.buys, b.bids) && SideHolds(w, w.sells, b.asks)
    requires Side(b, buy) != []
    ensures |Nodes(w, buy)| == |Side(b, buy)|
    ensures var k := Nodes(w, buy)[0].order.slot;
            && k < |w.store| && Shaped(FillSlot(w, k, n))
            && SideHolds(FillSlot(w, k, n), w.buys, FillBest(b, n, buy).bids)
            && SideHolds(FillSlot(w, k, n), w.sells, FillBest(b, n, buy).asks)
  {
    hide WellFormed, EntryHolds;
    HeadSlot(w, b, buy);
    var k := Nodes(w, buy)[0].order.slot;
    if buy {
      FillOwnSide(w, k, n, w.buys, b.bids);
      FillOtherSide(w, k, n, w.sells, b.asks);
    } else {
      FillOtherSide(w, k, n, w.buys, b.bids);
      FillOwnSide(w, k, n, w.sells, b.asks);
    }
  }

  lemma FillBestIds(b: Book, n: int, buy: bool)
    requires Side(b, buy) != []
    ensures forall id :: IsResting(FillBest(b, n, buy), id) <==> IsResting(b, id)
    ensures Size(FillBest(b, n, buy)) == Size(b)
  {
    FillHeadIds(Side(b, buy), n);
  }

  /** Filling the best order of a side in place is filling the head of that side of the book. */
  lemma FillBestHolds(w: Snapshot, b: Book, n: int, buy: bool)
    requires Holds(w, b) && Side(b, buy) != []
    ensures |Nodes(w, buy)| == |Side(b, buy)|
    ensures var k := Nodes(w, buy)[0].order.slot;
            && k < |w.store| && w.store[k] == Side(b, buy)[0]
            && Holds(FillSlot(w, k, n), FillBest(b, n, buy))
  {
    hide WellFormed, EntryHolds, SideHolds, UsedIsIndexed, IsResting;
    HoldsFacts(w, b);
    HeadSlot(w, b, buy);
    var k := Nodes(w, buy)[0].order.slot;
    FillSlotIndexed(w, k, n);
    FillBestSides(w, b, n, buy);
    FillBestShape(b, n, buy);
    FillBestIds(b, n, buy);
  }

  /** The same for both best orders, which sit in different slots. */
  lemma FillBothHold(w: Snapshot, b: Book, n: int)
    requires Holds(w, b) && b.bids != [] && b.asks != []
    ensures |w.buys| == |b.bids| && |w.sells| == |b.asks|
    ensures var i, j := w.buys[0].order.slot, w.sells[0].order.slot;
            && i < |w.store| && j < |w.store| && i != j
            && Holds(w.(store := w.store[i := Fill(b.bids[0], n)][j := Fill(b.asks[0], n)]),
                     Book(FillHead(b.bids, n), FillHead(b.asks, n)))
  {
    hide Holds;
    HoldsFacts(w, b);
    FillBestHolds(w, b, n, true);
    var i := w.buys[0].order.slot;
    FillBestHolds(w, b, n, false);
    FillBestHolds(FillSlot(w, i, n), FillBest(b, n, true), n, false);
  }
}
