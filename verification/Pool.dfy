/** The fixed pool of order slots: first free slot on allocation, slot offset on release. */
module Pool {
  import opened Orders

  /** How many slots are in use. */
  function Used(s: seq<bool>): (n: nat)
    ensures n <= |s|
    ensures n == |s| <==> forall i :: 0 <= i < |s| ==> s[i]
  {
    if s == [] then 0 else
      var n := Used(s[1..]);
      assert (forall i :: 0 <= i < |s| ==> s[i]) <==> s[0] && forall i :: 0 <= i < |s[1..]| ==> s[1..][i] by {
        assert forall i :: 0 < i < |s| ==> s[i] == s[1..][i - 1];
      }
      (if s[0] then 1 else 0) + n
  }

  lemma {:induction false} UsedUpdate(s: seq<bool>, k: nat, v: bool)
    requires k < |s|
    ensures Used(s[k := v]) == Used(s) - (if s[k] then 1 else 0) + (if v then 1 else 0)
  {
    if k == 0 {
      assert s[k := v][1..] == s[1..];
    } else {
      assert s[k := v][1..] == s[1..][k - 1 := v];
      UsedUpdate(s[1..], k - 1, v);
    }
  }

  class MemoryPool {
    const slots: seq<Order>
    const inUse: array<bool>

    ghost predicate Valid() {
      |slots| == inUse.Length && forall i :: 0 <= i < |slots| ==> slots[i].slot == i
    }

    constructor (size: nat)
      ensures Valid() && |slots| == size
      ensures fresh(inUse) && forall i :: 0 <= i < size ==> fresh(slots[i]) && !inUse[i]
      ensures Used(inUse[..]) == 0
    {
      var storage: seq<Order> := [];
      while |storage| < size
        invariant |storage| <= size
        invariant forall i :: 0 <= i < |storage| ==> fresh(storage[i]) && storage[i].slot == i
      {
        var slot := new Order(|storage|);
        storage := storage + [slot];
      }
      slots := storage;
      inUse := new bool[size](_ => false);
      new;
      NoneUsed(inUse[..]);
    }

    static lemma {:induction false} NoneUsed(s: seq<bool>)
      requires forall i :: 0 <= i < |s| ==> !s[i]
      ensures Used(s) == 0
    {
      if s != [] {
        NoneUsed(s[1..]);
      }
    }

    /** Constructs an order in the first free slot; null when every slot is in use. */
    method Allocate(id: int, symbol: string, price: real, quantity: int, isBuy: bool) returns (p: Order?)
      requires Valid()
      modifies inUse, slots
      ensures p == null <==> Used(old(inUse[..])) == |slots|
      ensures p == null ==> inUse[..] == old(inUse[..])
      ensures p != null ==>
        && p.slot < |slots| && p == slots[p.slot]
        && !old(inUse[p.slot]) && (forall i :: 0 <= i < p.slot ==> old(inUse[i]))
        && inUse[..] == old(inUse[..])[p.slot := true]
        && Used(inUse[..]) == Used(old(inUse[..])) + 1
      ensures forall i :: 0 <= i < |slots| ==>
        slots[i].View() == if slots[i] == p then Fresh(id, symbol, price, quantity, isBuy) else old(slots[i].View())
    {
      var i := 0;
      while i < |slots|
        invariant 0 <= i <= |slots|
        invariant forall j :: 0 <= j < i ==> inUse[j]
        invariant inUse[..] == old(inUse[..])
        invariant forall j :: 0 <= j < |slots| ==> slots[j].View() == old(slots[j].View())
      {
        if !inUse[i] {
          inUse[i] := true;
          slots[i].Set(id, symbol, price, quantity, isBuy);
          UsedUpdate(old(inUse[..]), i, true);
          assert inUse[..] == old(inUse[..])[i := true];
          assert !old(inUse[..])[i];
          return slots[i];
        }
        i := i + 1;
      }
      return null;
    }

    /** Frees the slot at the pointer's offset. */
    method Deallocate(p: Order?)
      requires Valid()
      modifies inUse
      ensures inUse[..]
        == if p != null && p.slot < inUse.Length then old(inUse[..])[p.slot := false] else old(inUse[..])
      ensures p != null && p.slot < inUse.Length && old(inUse[p.slot]) ==> Used(inUse[..]) == Used(old(inUse[..])) - 1
    {
      if p == null {
        return;
      }
      if p.slot < inUse.Length {
        inUse[p.slot] := false;
        UsedUpdate(old(inUse[..]), p.slot, false);
        assert inUse[..] == old(inUse[..])[p.slot := false];
      }
    }
  }
}
