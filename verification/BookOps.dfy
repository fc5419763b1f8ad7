/** Adding to and removing from the book, as functions on book values. */
module BookOps {
  import opened Orders
  import opened Matching

  function Prices(s: seq<Rec>): (r: seq<real>)
    ensures |r| == |s| && forall i :: 0 <= i < |s| ==> r[i] == s[i].price
  {
    seq(|s|, i requires 0 <= i < |s| => s[i].price)
  }

  /** Where an ordered multimap places a new entry with this key: behind every entry the key does not come before
      (section 26.2.6 of ISO/IEC 14882:2017). */
  function UpperBound(keys: seq<real>, key: real, isBuy: bool): (k: nat)
    ensures k <= |keys|
    ensures forall i :: 0 <= i < k ==> !Before(isBuy, key, keys[i])
    ensures k < |keys| ==> Before(isBuy, key, keys[k])
  {
    if keys == [] || Before(isBuy, key, keys[0]) then 0 else 1 + UpperBound(keys[1..], key, isBuy)
  }

  function InsertAt<T>(s: seq<T>, k: nat, x: T): seq<T>
    requires k <= |s|
  {
    s[..k] + [x] + s[k..]
  }

  function DropAt<T>(s: seq<T>, k: nat): seq<T>
    requires k < |s|
  {
    s[..k] + s[k + 1..]
  }

  function Insert(s: seq<Rec>, r: Rec): seq<Rec> {
    InsertAt(s, UpperBound(Prices(s), r.price, r.isBuy), r)
  }

  function AddOrder(b: Book, r: Rec): Book {
    if r.isBuy then b.(bids := Insert(b.bids, r)) else b.(asks := Insert(b.asks, r))
  }

  /** The first place of `x` in `s`; the length of `s` when it is absent. */
  function IndexOf<T(==)>(s: seq<T>, x: T): (k: nat)
    ensures k <= |s| && (forall i :: 0 <= i < k ==> s[i] != x) && (k < |s| ==> s[k] == x)
  {
    if s == [] || s[0] == x then 0 else 1 + IndexOf(s[1..], x)
  }

  function Ids(s: seq<Rec>): (r: seq<int>)
    ensures |r| == |s| && forall i :: 0 <= i < |s| ==> r[i] == s[i].id
  {
    seq(|s|, i requires 0 <= i < |s| => s[i].id)
  }

  function Position(s: seq<Rec>, id: int): (k: nat)
    ensures k <= |s| && (forall i :: 0 <= i < k ==> s[i].id != id) && (k < |s| ==> s[k].id == id)
  {
    IndexOf(Ids(s), id)
  }

  function RemoveOrder(b: Book, id: int): Book {
    var i, j := Position(b.bids, id), Position(b.asks, id);
    if i < |b.bids| then b.(bids := DropAt(b.bids, i))
    else if j < |b.asks| then b.(asks := DropAt(b.asks, j))
    else b
  }

  predicate IsResting(b: Book, id: int) {
    Position(b.bids, id) < |b.bids| || Position(b.asks, id) < |b.asks|
  }

  lemma PositionUnique(s: seq<Rec>, id: int, k: nat)
    requires DistinctIds(s) && k < |s| && s[k].id == id
    ensures Position(s, id) == k
  {
  }

  lemma InsertAtElements<T>(s: seq<T>, k: nat, x: T, i: nat)
    requires k <= |s| && i <= |s|
    ensures |InsertAt(s, k, x)| == |s| + 1
    ensures InsertAt(s, k, x)[i] == if i < k then s[i] else if i == k then x else s[i - 1]
  {
  }

  lemma InsertSorted(s: seq<Rec>, r: Rec)
    requires SortedSide(s, r.isBuy) && DistinctIds(s)
    requires forall i :: 0 <= i < |s| ==> s[i].id != r.id
    ensures SortedSide(Insert(s, r), r.isBuy) && DistinctIds(Insert(s, r))
  {
    var k := UpperBound(Prices(s), r.price, r.isBuy);
    var s' := Insert(s, r);
    forall i, j | 0 <= i < j < |s'| ensures !Before(r.isBuy, s'[j].price, s'[i].price) && s'[i].id != s'[j].id {
      InsertAtElements(s, k, r, i);
      InsertAtElements(s, k, r, j);
      if i == k {
        assert Before(r.isBuy, r.price, s[k].price);
        assert k == j - 1 || !Before(r.isBuy, s[j - 1].price, s[k].price);
      } else if j == k {
        assert !Before(r.isBuy, r.price, Prices(s)[i]);
      }
    }
  }

  /** The new side holds the new order and the old ones; nothing else shows in a property of single orders. */
  lemma InsertElements(s: seq<Rec>, r: Rec, t: seq<Rec>)
    requires Disjoint(s, t) && forall j :: 0 <= j < |t| ==> t[j].id != r.id
    requires forall i :: 0 <= i < |s| ==> s[i].isBuy == r.isBuy
    ensures var s' := Insert(s, r);
            && |s'| == |s| + 1 && Disjoint(s', t) && Disjoint(t, s')
            && forall i :: 0 <= i < |s'| ==> s'[i].isBuy == r.isBuy
  {
    var s' := Insert(s, r);
    forall i | 0 <= i < |s'|
      ensures s'[i].isBuy == r.isBuy && forall j :: 0 <= j < |t| ==> s'[i].id != t[j].id
    {
      InsertAtElements(s, UpperBound(Prices(s), r.price, r.isBuy), r, i);
    }
  }

  lemma NotResting(b: Book, id: int)
    requires !IsResting(b, id)
    ensures forall i :: 0 <= i < |b.bids| ==> b.bids[i].id != id
    ensures forall i :: 0 <= i < |b.asks| ==> b.asks[i].id != id
  {
  }

  /** Adding an order whose id is not resting keeps the shape of the book. */
  lemma AddWellFormed(b: Book, r: Rec)
    requires WellFormed(b) && !IsResting(b, r.id)
    ensures WellFormed(AddOrder(b, r))
    ensures Size(AddOrder(b, r)) == Size(b) + 1
  {
    NotResting(b, r.id);
    if r.isBuy {
      InsertSorted(b.bids, r);
      InsertElements(b.bids, r, b.asks);
    } else {
      InsertSorted(b.asks, r);
      assert Disjoint(b.asks, b.bids);
      InsertElements(b.asks, r, b.bids);
    }
  }

  /** What is left after taking out position `k`, and that its id is gone. */
  lemma DropKeeps(s: seq<Rec>, k: nat, isBuy: bool)
    requires k < |s| && SortedSide(s, isBuy) && DistinctIds(s)
    ensures var s' := DropAt(s, k);
            && |s'| == |s| - 1 && SortedSide(s', isBuy) && DistinctIds(s')
            && (forall i :: 0 <= i < |s'| ==> s'[i] == s[if i < k then i else i + 1] && s'[i].id != s[k].id)
  {
    var s' := DropAt(s, k);
    assert forall i :: 0 <= i < |s'| ==> s'[i] == s[if i < k then i else i + 1];
  }

  /** The side without the orders of that id, the others in their places. */
  function Without(s: seq<Rec>, id: int): seq<Rec> {
    if s == [] then [] else (if s[0].id == id then [] else [s[0]]) + Without(s[1..], id)
  }

  lemma {:induction false} WithoutAbsent(s: seq<Rec>, id: int)
    requires forall i :: 0 <= i < |s| ==> s[i].id != id
    ensures Without(s, id) == s
  {
    if s != [] {
      WithoutAbsent(s[1..], id);
    }
  }

  lemma {:induction false} WithoutIsDrop(s: seq<Rec>, id: int, k: nat)
    requires DistinctIds(s) && k < |s| && s[k].id == id
    ensures Without(s, id) == DropAt(s, k)
  {
    if k == 0 {
      WithoutAbsent(s[1..], id);
    } else {
      WithoutIsDrop(s[1..], id, k - 1);
      assert DropAt(s, k) == [s[0]] + DropAt(s[1..], k - 1);
    }
  }

  /** Removing takes out the order with that id, if it rests, and nothing else: every other order stays in its place. */
  lemma RemoveTakesOnly(b: Book, id: int)
    requires WellFormed(b)
    ensures RemoveOrder(b, id) == Book(Without(b.bids, id), Without(b.asks, id))
  {
    var i, j := Position(b.bids, id), Position(b.asks, id);
    if i < |b.bids| {
      WithoutIsDrop(b.bids, id, i);
      WithoutAbsent(b.asks, id);
    } else if j < |b.asks| {
      WithoutAbsent(b.bids, id);
      WithoutIsDrop(b.asks, id, j);
    } else {
      WithoutAbsent(b.bids, id);
      WithoutAbsent(b.asks, id);
    }
  }

  /** Removing keeps the shape of the book and leaves the id absent. */
  lemma RemoveWellFormed(b: Book, id: int)
    requires WellFormed(b)
    ensures WellFormed(RemoveOrder(b, id))
    ensures Size(RemoveOrder(b, id)) == Size(b) - (if IsResting(b, id) then 1 else 0)
    ensures !IsResting(RemoveOrder(b, id), id)
  {
    var i, j := Position(b.bids, id), Position(b.asks, id);
    if i < |b.bids| {
      DropKeeps(b.bids, i, true);
      assert j == |b.asks|;
    } else if j < |b.asks| {
      DropKeeps(b.asks, j, false);
    }
  }

  lemma InsertUndone(s: seq<Rec>, r: Rec)
    requires DistinctIds(Insert(s, r))
    ensures Without(Insert(s, r), r.id) == s
  {
    hide UpperBound, InsertAt, DropAt, DistinctIds, Without;
    var k := UpperBound(Prices(s), r.price, r.isBuy);
    InsertAtElements(s, k, r, k);
    WithoutIsDrop(Insert(s, r), r.id, k);
    DropInserted(s, k, r);
  }

  lemma DropInserted<T>(s: seq<T>, k: nat, x: T)
    requires k <= |s|
    ensures k < |InsertAt(s, k, x)| && DropAt(InsertAt(s, k, x), k) == s
  {
  }

  /** Removing what was just added restores the book. */
  lemma RemoveUndoesAdd(b: Book, r: Rec)
    requires WellFormed(b) && !IsResting(b, r.id)
    ensures RemoveOrder(AddOrder(b, r), r.id) == b
  {
    AddWellFormed(b, r);
    NotResting(b, r.id);
    RemoveTakesOnly(AddOrder(b, r), r.id);
    hide IsResting, RemoveOrder, Insert, Without;
    InsertUndone(Side(b, r.isBuy), r);
    WithoutAbsent(Side(b, !r.isBuy), r.id);
  }
}
