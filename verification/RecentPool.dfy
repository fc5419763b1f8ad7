/** The fixed-size pool that overwrites its oldest order. */
module RecentPool {

  function LastOf<T>(s: seq<T>, n: nat): (r: seq<T>)
    ensures |r| == if |s| < n then |s| else n
  {
    if |s| <= n then s else s[|s| - n..]
  }

  lemma LastOfAppend<T>(s: seq<T>, t: seq<T>, n: nat)
    ensures LastOf(LastOf(s, n) + t, n) == LastOf(s + t, n)
  {
    if |s| > n && |t| < n {
      assert (s[|s| - n..] + t)[|t|..] == (s + t)[|s| + |t| - n..];
    } else if |s| > n {
      assert (s[|s| - n..] + t)[|t|..] == (s + t)[|s| + |t| - n..];
    }
  }

  /** Handling the orders one at a time. */
  function HandleAll<T>(recent: seq<T>, orders: seq<T>, n: nat): seq<T>
    decreases |orders|
  {
    if orders == [] then recent else HandleAll(LastOf(recent + [orders[0]], n), orders[1..], n)
  }

  /** Handled one at a time, what remains of a stream is its last `n` orders. */
  lemma {:induction false} HandleAllIsLast<T>(recent: seq<T>, orders: seq<T>, n: nat)
    requires |recent| <= n
    ensures HandleAll(recent, orders, n) == LastOf(recent + orders, n)
    decreases |orders|
  {
    if orders == [] {
      assert recent + orders == recent;
    } else {
      HandleAllIsLast(LastOf(recent + [orders[0]], n), orders[1..], n);
      LastOfAppend(recent + [orders[0]], orders[1..], n);
      assert recent + [orders[0]] + orders[1..] == recent + orders;
    }
  }

  /** A full pool read from its oldest entry round to its newest. */
  function Rotated<T>(pool: seq<T>, oldest: nat): (r: seq<T>)
    requires oldest <= |pool|
    ensures |r| == |pool|
  {
    pool[oldest..] + pool[..oldest]
  }

  /** A pool with room keeps what it has in front of the new order. */
  lemma AppendKeeps<T>(pool: seq<T>, o: T, n: nat)
    requires |pool| < n
    ensures LastOf(pool + [o], n) == pool + [o] == Rotated(pool + [o], 0)
  {
  }

  /** Overwriting the oldest entry and moving on drops it and appends the new one. */
  lemma OverwriteRotates<T>(pool: seq<T>, k: nat, o: T)
    requires k < |pool|
    ensures Rotated(pool[k := o], if k + 1 == |pool| then 0 else k + 1) == LastOf(Rotated(pool, k) + [o], |pool|)
  {
    var before := Rotated(pool, k) + [o];
    assert LastOf(before, |pool|) == before[1..];
    assert pool[k := o][..k + 1] == pool[..k] + [o];
    assert pool[k := o][k + 1..] == pool[k + 1..];
    if k + 1 == |pool| {
      assert Rotated(pool[k := o], 0) == pool[..k] + [o];
    }
  }

  /** One more order of a stream. */
  lemma StreamStep<T>(before: seq<T>, orders: seq<T>, i: nat, n: nat)
    requires i < |orders|
    ensures LastOf(LastOf(before + orders[..i], n) + [orders[i]], n) == LastOf(before + orders[..i + 1], n)
  {
    LastOfAppend(before + orders[..i], [orders[i]], n);
    assert orders[..i + 1] == orders[..i] + [orders[i]];
    assert before + orders[..i] + [orders[i]] == before + orders[..i + 1];
  }

  class OptimizedOrderBook<T> {
    var orderPool: seq<T>
    var orderCounter: nat
    var oldestOrder: nat
    const size: nat

    ghost predicate Valid()
      reads this
    {
      && size > 0 && orderCounter == |orderPool| <= size
      && oldestOrder < size && (|orderPool| < size ==> oldestOrder == 0)
    }

    /** The pool from its oldest entry to its newest. */
    ghost function Recent(): seq<T>
      requires Valid()
      reads this
    {
      if |orderPool| < size then orderPool else Rotated(orderPool, oldestOrder)
    }

    constructor (size: nat)
      requires size > 0
      ensures Valid() && this.size == size && Recent() == []
    {
      this.size := size;
      orderPool, orderCounter, oldestOrder := [], 0, 0;
    }

    method HandleOrder(o: T)
      requires Valid()
      modifies this
      ensures Valid()
      ensures Recent() == LastOf(old(Recent()) + [o], size)
    {
      hide LastOf, Rotated;
      if orderCounter < size {
        AppendKeeps(orderPool, o, size);
        orderCounter := orderCounter + 1;
        orderPool := orderPool + [o];
      } else {
        OverwriteRotates(orderPool, oldestOrder, o);
        orderPool := orderPool[oldestOrder := o];
        oldestOrder := oldestOrder + 1;
        if oldestOrder == size {
          oldestOrder := 0;
        }
      }
    }

    /** Two orders an iteration; the pool ends as the last `size` orders of all that ever arrived, in arrival order,
        which is what handling them one at a time leaves. */
    method ProcessOrders(orders: seq<T>)
      requires Valid()
      modifies this
      ensures Valid()
      ensures Recent() == LastOf(old(Recent()) + orders, size)
      ensures Recent() == HandleAll(old(Recent()), orders, size)
    {
      hide LastOf, HandleAll, Rotated;
      var i := 0;
      ghost var before := Recent();
      NothingHandled(before, orders, size);
      while i < |orders|
        invariant 0 <= i && Valid()
        invariant Recent() == LastOf(before + orders[..if i <= |orders| then i else |orders|], size)
        decreases |orders| - i
      {
        StreamStep(before, orders, i, size);
        HandleOrder(orders[i]);
        if i + 1 < |orders| {
          StreamStep(before, orders, i + 1, size);
          HandleOrder(orders[i + 1]);
        }
        i := i + 2;
      }
      assert orders[..|orders|] == orders;
      HandleAllIsLast(before, orders, size);
    }
  }

  lemma NothingHandled<T>(recent: seq<T>, orders: seq<T>, n: nat)
    requires |recent| <= n
    ensures LastOf(recent + orders[..0], n) == recent
  {
    assert recent + orders[..0] == recent;
  }
}
