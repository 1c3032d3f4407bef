/** The in-flight priority queue: a binary heap in a slice, whose elements know their own slot. */
module InFlightHeap {
  import opened HeapOrder

  /** An element; `key` is what the queue around the heap files it under. */
  class Item {
    const key: string
    var pri: int
    var index: int

    /** A new element has the index 0; a copy of one that has been taken off a heap has its index -1. */
    constructor (key: string, index: int)
      ensures this.key == key && pri == 0 && this.index == index
    {
      this.key, pri, this.index := key, 0, index;
    }
  }

  class InFlightPqueue {
    /** The slice: its backing array, as long as its capacity, and its length. */
    var a: array<Item?>
    var n: nat
    ghost var items: seq<Item>
    ghost var pris: seq<int>
    ghost var members: set<Item>

    /** The slots hold the items, and every item knows its slot. */
    ghost predicate Backed()
      reads this, a, members
    {
      && |items| == |pris| == n <= a.Length
      && (forall k {:trigger items[k]} {:trigger a[k]} :: 0 <= k < n ==>
            items[k] in members && a[k] == items[k] && items[k].index == k && items[k].pri == pris[k])
      && (forall x {:trigger x in members} :: x in members ==> 0 <= x.index < n && items[x.index] == x)
    }

    ghost predicate Valid()
      reads this, a, members
    {
      Backed() && Heap(pris, n) && a.Length >= 13
    }

    constructor (capacity: nat)
      requires capacity >= 13
      ensures Valid() && items == [] && a.Length == capacity && fresh(a)
    {
      a := new Item?[capacity](_ => null);
      n, items, pris, members := 0, [], [], {};
    }

    method Swap(i: nat, j: nat)
      requires Backed() && i < n && j < n
      modifies a, members`index, `items, `pris
      ensures Backed() && items == Swapped(old(items), i, j) && pris == Swapped(old(pris), i, j)
    {
      var x, y := a[i], a[j];
      assert x == items[i] && y == items[j];
      a[i], a[j] := y, x;
      y.index := i;
      x.index := j;
      items, pris := Swapped(items, i, j), Swapped(pris, i, j);
    }

    /** The heap holds as many items as before, in the same slots from `m` on. */
    twostate predicate Rearranged(m: nat)
      reads this
    {
      && |pris| == |items| == |old(pris)| == |old(items)| >= m
      && (forall k {:trigger items[k]} :: m <= k < |items| ==> items[k] == old(items)[k])
      && (forall k {:trigger pris[k]} :: m <= k < |items| ==> pris[k] == old(pris)[k])
    }

    function Before(j: nat, i: nat): (r: bool)
      requires Backed() && i < n && j < n
      reads this, a, members
      ensures r <==> pris[j] < pris[i]
    {
      assert a[i] == items[i] && a[j] == items[j];
      a[j].pri < a[i].pri
    }

    method Up(j0: nat, ghost m: nat)
      requires Backed() && j0 < m <= n && UpHole(pris, m, j0)
      modifies a, members`index, `items, `pris
      ensures Backed() && Heap(pris, m) && Rearranged(m)
    {
      var j: nat := j0;
      while true
        invariant Backed() && j < m && UpHole(pris, m, j) && Rearranged(m)
        decreases j
      {
        var i: nat := if j == 0 then 0 else (j - 1) / 2;
        if i == j || !Before(j, i) {
          DoneUp(pris, m, j);
          break;
        }
        StepUp(pris, m, j);
        Swap(i, j);
        j := i;
      }
    }

    /** The child of `i` that goes before the other one. */
    method FirstChild(i: nat, m: nat) returns (j: nat)
      requires Backed() && m <= n && 2 * i + 1 < m
      ensures i < j < m && Parent(j) == i
      ensures forall k {:trigger pris[k]} :: 0 < k < m && Parent(k) == i ==> pris[j] <= pris[k]
    {
      var j1 := 2 * i + 1;
      j := j1;
      var j2 := j1 + 1;
      if j2 < m && !Before(j1, j2) {
        j := j2;
      }
    }

    method Down(i0: nat, m: nat)
      requires Backed() && i0 <= m <= n && i0 < n && Hole(pris, m, i0)
      modifies a, members`index, `items, `pris
      ensures Backed() && UpHole(pris, m, i0) && Rearranged(m)
    {
      var i: nat := i0;
      while true
        invariant Backed() && i <= m && i < n && Hole(pris, m, i) && Rearranged(m)
        invariant i != i0 ==> 0 < i < m && pris[Parent(i)] <= pris[i]
        decreases m - i
      {
        if 2 * i + 1 >= m {
          DoneDown(pris, m, i);
          break;
        }
        var j := FirstChild(i, m);
        if !Before(j, i) {
          DoneDown(pris, m, i);
          break;
        }
        StepDown(pris, m, i, j);
        Swap(i, j);
        i := j;
      }
      FinishDown(pris, m, i, i0);
    }

    /** The slice with another capacity. */
    method Resize(capacity: nat)
      requires Backed() && capacity >= n
      modifies this`a
      ensures Backed() && fresh(a) && a.Length == capacity
    {
      var b := new Item?[capacity](_ => null);
      var i := 0;
      while i < n
        invariant i <= n && Backed() && b != a
        invariant forall k {:trigger b[k]} :: 0 <= k < i ==> b[k] == items[k]
      {
        b[i] := a[i];
        i := i + 1;
      }
      a := b;
    }

    /** Less room when the slice is less than half full; the capacity stays at 13 or more. */
    method Shrink()
      requires Backed() && a.Length >= 13
      modifies this`a
      ensures Backed() && a.Length >= 13 && (a == old(a) || fresh(a))
    {
      var c := a.Length;
      if n < c / 2 && c > 25 {
        Resize(c / 2);
      }
    }

    /** Room for one more: the capacity doubles when the slice is full. */
    method Grow()
      requires Valid()
      modifies this`a
      ensures Valid() && n < a.Length && (a == old(a) || fresh(a))
    {
      if n + 1 > a.Length {
        Resize(2 * a.Length);
      }
    }

    /** Puts `x` behind the last item. */
    method Place(x: Item)
      requires Backed() && n < a.Length && x !in members
      modifies a, x`index, `n, `items, `pris, `members
      ensures Backed() && members == old(members) + {x}
      ensures items == old(items) + [x] && pris == old(pris) + [x.pri]
    {
      x.index := n;
      a[n] := x;
      n, items, pris, members := n + 1, items + [x], pris + [x.pri], members + {x};
    }

    method Push(x: Item)
      requires Valid() && x !in members
      modifies this, a, members`index, x`index
      ensures Valid() && (a == old(a) || fresh(a)) && members == old(members) + {x}
    {
      Grow();
      var last := n;
      Place(x);
      assert forall k :: 0 <= k < last ==> pris[k] == old(pris)[k];
      Up(last, n);
    }

    /** Takes the last item off. */
    method Cut() returns (x: Item)
      requires Backed() && n > 0
      modifies `n, `items, `pris, `members, members`index
      ensures Backed() && old(items) == items + [x] && old(pris) == pris + [x.pri]
      ensures x in old(members) && members == old(members) - {x} && x.index == -1
    {
      x := a[n - 1];
      assert x == items[n - 1];
      x.index := -1;
      n, items, pris, members := n - 1, items[..n - 1], pris[..n - 1], members - {x};
    }

    method Pop() returns (x: Item)
      requires Valid() && n > 0
      modifies this, a, members`index
      ensures Valid() && (a == old(a) || fresh(a))
      ensures x in old(members) && members == old(members) - {x} && x.index == -1
      ensures x == old(items[0]) && x.pri == old(pris[0])
    {
      Swap(0, n - 1);
      ReplacedHasHole(old(pris), n - 1, 0, pris);
      Down(0, n - 1);
      Shrink();
      ghost var last := pris;
      x := Cut();
      HeapCut(last, pris, x.pri);
    }

    /** Another slot's item changes places with the last one, and the rest is a heap again. */
    method MoveToEnd(i: nat)
      requires Valid() && i < n - 1
      modifies a, members`index, `items, `pris
      ensures Backed() && Heap(pris, n - 1) && items[n - 1] == old(items[i])
    {
      Swap(i, n - 1);
      ReplacedHasHole(old(pris), n - 1, i, pris);
      Down(i, n - 1);
      Up(i, n - 1);
    }

    method Remove(i: nat) returns (x: Item)
      requires Valid() && i < n
      modifies this, a, members`index
      ensures Valid() && a == old(a)
      ensures x == old(items[i]) && members == old(members) - {x} && x.index == -1
    {
      if n - 1 != i {
        MoveToEnd(i);
      }
      ghost var last := pris;
      x := Cut();
      HeapCut(last, pris, x.pri);
    }

    /** Takes off the first item if it is due, and no other item is due earlier. */
    method PeekAndShift(max: int) returns (x: Item?, wait: int)
      requires Valid()
      modifies this, a, members`index
      ensures Valid() && (a == old(a) || fresh(a))
      ensures x == null ==> members == old(members) && forall y :: y in members ==> y.pri > max
      ensures x != null ==> x in old(members) && members == old(members) - {x} && x.index == -1
      ensures x != null ==> x.pri <= max && forall y :: y in members ==> x.pri <= y.pri
    {
      if n == 0 {
        return null, 0;
      }
      forall y | y in members
        ensures pris[0] <= y.pri
      {
        FirstIsLeast(pris, n, y.index);
        assert items[y.index] == y;
      }
      x := a[0];
      if x.pri > max {
        wait := x.pri - max;
        return null, wait;
      }
      var y := Pop();
      wait := 0;
    }
  }
}
