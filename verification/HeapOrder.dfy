/** Heap order on a sequence of priorities, and what moving one element up or down does to it. */
module HeapOrder {
  function Parent(k: nat): nat
    requires k > 0
  {
    (k - 1) / 2
  }

  /** No element comes before its parent, except possibly `up` before its own and the children of `down` before it. */
  ghost predicate Ordered(s: seq<int>, n: nat, up: int, down: int)
    requires n <= |s|
  {
    forall k {:trigger s[k]} :: 0 < k < n && k != up && Parent(k) != down ==> s[Parent(k)] <= s[k]
  }

  /** The children of `i` do not come before the parent of `i`. */
  ghost predicate Bridged(s: seq<int>, n: nat, i: nat)
    requires n <= |s| && i < |s|
  {
    forall k {:trigger s[k]} :: 0 < i && 0 < k < n && Parent(k) == i ==> s[Parent(i)] <= s[k]
  }

  ghost predicate Heap(s: seq<int>, n: nat)
    requires n <= |s|
  {
    Ordered(s, n, -1, -1)
  }

  /** A heap but for `i`, which may belong further up. */
  ghost predicate UpHole(s: seq<int>, n: nat, i: nat)
    requires n <= |s| && i < |s|
  {
    Ordered(s, n, i, -1) && Bridged(s, n, i)
  }

  /** A heap but for `i`, which may belong further up or down. */
  ghost predicate Hole(s: seq<int>, n: nat, i: nat)
    requires n <= |s| && i < |s|
  {
    Ordered(s, n, i, i) && Bridged(s, n, i)
  }

  function Swapped<T>(s: seq<T>, i: nat, j: nat): (r: seq<T>)
    requires i < |s| && j < |s|
    ensures |r| == |s|
    ensures multiset(r) == multiset(s)
    ensures r[i] == s[j] && r[j] == s[i]
    ensures forall k {:trigger r[k]} :: 0 <= k < |s| && k != i && k != j ==> r[k] == s[k]
  {
    s[i := s[j]][j := s[i]]
  }

  lemma ParentBelow(k: nat)
    requires k > 0
    ensures Parent(k) < k
  {
  }

  /** One step up. */
  lemma StepUp(s: seq<int>, n: nat, j: nat)
    requires 0 < j < n <= |s| && UpHole(s, n, j) && s[j] < s[Parent(j)]
    ensures UpHole(Swapped(s, Parent(j), j), n, Parent(j))
  {
    var i := Parent(j);
    var r := Swapped(s, i, j);
    forall k {:trigger r[k]} | 0 < k < n && k != i
      ensures r[Parent(k)] <= r[k]
    {
      assert s[k] == s[k] && s[Parent(k)] == s[Parent(k)];
    }
    if i > 0 {
      assert s[Parent(i)] <= s[i];
      forall k {:trigger r[k]} | 0 < k < n && Parent(k) == i
        ensures r[Parent(i)] <= r[k]
      {
        assert s[k] == s[k];
      }
    }
  }

  /** Nothing to do: the element does not come before its parent. */
  lemma DoneUp(s: seq<int>, n: nat, j: nat)
    requires j < n <= |s| && UpHole(s, n, j) && (j == 0 || s[j] >= s[Parent(j)])
    ensures Heap(s, n)
  {
  }

  /** One step down, to the smaller child. */
  lemma StepDown(s: seq<int>, n: nat, i: nat, j: nat)
    requires i < j < n <= |s| && Hole(s, n, i) && Parent(j) == i && s[j] < s[i]
    requires forall k {:trigger s[k]} :: 0 < k < n && Parent(k) == i ==> s[j] <= s[k]
    ensures Hole(Swapped(s, i, j), n, j) && Swapped(s, i, j)[i] < Swapped(s, i, j)[j]
    ensures i > 0 ==> Swapped(s, i, j)[Parent(i)] <= Swapped(s, i, j)[i]
  {
    var r := Swapped(s, i, j);
    if i > 0 {
      assert s[Parent(i)] <= s[j];
    }
    forall k {:trigger r[k]} | 0 < k < n && k != j && Parent(k) != j
      ensures r[Parent(k)] <= r[k]
    {
      assert s[k] == s[k];
    }
    forall k {:trigger r[k]} | 0 < k < n && Parent(k) == j
      ensures r[i] <= r[k]
    {
      assert s[k] == s[k];
    }
  }

  /** Nothing more to do below: the children do not come before `i`. */
  lemma DoneDown(s: seq<int>, n: nat, i: nat)
    requires i < |s| && n <= |s| && Hole(s, n, i)
    requires forall k {:trigger s[k]} :: 0 < k < n && Parent(k) == i ==> s[i] <= s[k]
    ensures UpHole(s, n, i)
  {
  }

  /** A heap is one with a hole anywhere. */
  lemma HeapHasHole(s: seq<int>, n: nat, i: nat)
    requires i < |s| && n <= |s| && Heap(s, n)
    ensures UpHole(s, n, i)
  {
    forall k {:trigger s[k]} | 0 < i && 0 < k < n && Parent(k) == i
      ensures s[Parent(i)] <= s[k]
    {
      assert s[i] <= s[k];
    }
  }

  /**
   An element that moved down does not come before its parent: only where it started may an element belong further up.
   */
  lemma FinishDown(s: seq<int>, n: nat, i: nat, i0: nat)
    requires n <= |s| && i < |s| && i0 < |s| && UpHole(s, n, i)
    requires i != i0 ==> 0 < i < n && s[Parent(i)] <= s[i]
    ensures UpHole(s, n, i0)
  {
    if i != i0 {
      DoneUp(s, n, i);
      HeapHasHole(s, n, i0);
    }
  }

  /** Any element put in the place of another of a heap leaves a hole there at most. */
  lemma ReplacedHasHole(s: seq<int>, n: nat, i: nat, r: seq<int>)
    requires i <= n < |s| == |r| && Heap(s, n + 1)
    requires forall k {:trigger r[k]} :: 0 <= k < n && k != i ==> r[k] == s[k]
    ensures Hole(r, n, i)
  {
    forall k {:trigger r[k]} | 0 < k < n && k != i && Parent(k) != i
      ensures r[Parent(k)] <= r[k]
    {
      assert s[k] == r[k];
    }
    if i > 0 {
      assert i < n ==> s[Parent(i)] <= s[i];
      forall k {:trigger r[k]} | 0 < k < n && Parent(k) == i
        ensures r[Parent(i)] <= r[k]
      {
        assert s[k] == r[k];
      }
    }
  }

  lemma HeapCut(s: seq<int>, r: seq<int>, x: int)
    requires s == r + [x] && Heap(s, |r|)
    ensures Heap(r, |r|)
  {
    forall k {:trigger r[k]} | 0 < k < |r|
      ensures r[Parent(k)] <= r[k]
    {
      assert s[k] == r[k];
    }
  }

  /** The first element of a heap is the smallest. */
  lemma {:induction false} FirstIsLeast(s: seq<int>, n: nat, k: nat)
    requires k < n <= |s| && Heap(s, n)
    ensures s[0] <= s[k]
    decreases k
  {
    if k > 0 {
      ParentBelow(k);
      FirstIsLeast(s, n, Parent(k));
    }
  }
}
