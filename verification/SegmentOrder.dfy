/** Putting the segments found on disk in order. */
module SegmentOrder {
  import opened FlatLog
  import opened HeapOrder

  ghost predicate Sorted(a: seq<int>, from: nat) {
    forall i, j {:trigger a[i], a[j]} :: 0 <= i < j < |a| && from <= j ==> a[i] <= a[j]
  }

  /** No base twice. */
  ghost predicate Distinct(a: seq<int>) {
    forall i, j {:trigger a[i], a[j]} :: 0 <= i < j < |a| ==> a[i] != a[j]
  }

  lemma {:induction false} SameElements(a: seq<int>, b: seq<int>)
    requires multiset(a) == multiset(b) && Distinct(a)
    ensures Distinct(b)
  {
    if i, j :| 0 <= i < j < |b| && b[i] == b[j] {
      var x := b[i];
      assert b == b[..i] + [x] + b[i + 1..j] + [x] + b[j + 1..];
      assert multiset(b)[x] >= 2;
      OnlyOnce(a, x);
    }
  }

  lemma {:induction false} OnlyOnce(a: seq<int>, x: int)
    requires Distinct(a)
    ensures multiset(a)[x] <= 1
  {
    if a != [] {
      var n := |a| - 1;
      assert a == a[..n] + [a[n]];
      OnlyOnce(a[..n], x);
      if a[n] == x {
        assert x !in a[..n];
        assert x !in multiset(a[..n]);
      }
    }
  }

  method Swap(a: array<int>, i: nat, j: nat)
    requires i < a.Length && j < a.Length
    modifies a
    ensures a[..] == Swapped(old(a[..]), i, j)
  {
    a[i], a[j] := a[j], a[i];
  }

  /**
   The largest of the elements up to `i` stands at `i`, behind which the `end` first elements are still to be passed.
   */
  ghost predicate Passed(a: seq<int>, i: nat, end: nat) {
    Sorted(a, end) && forall k {:trigger a[k]} :: 0 <= k < i < |a| ==> a[k] <= a[i]
  }

  lemma PassStep(a: seq<int>, i: nat, end: nat)
    requires 0 < i < end <= |a| && Passed(a, i - 1, end)
    ensures Passed(if a[i] < a[i - 1] then Swapped(a, i, i - 1) else a, i, end)
  {
  }

  lemma PassDone(a: seq<int>, end: nat)
    requires end <= |a| && Passed(a, if end > 0 then end - 1 else 0, end)
    ensures Sorted(a, if end > 0 then end - 1 else 0)
  {
  }

  /** One pass: the largest of the first `end` elements comes last among them. */
  method Pass(segments: array<int>, end: nat)
    requires end <= segments.Length && Sorted(segments[..], end)
    modifies segments
    ensures multiset(segments[..]) == multiset(old(segments[..]))
    ensures Sorted(segments[..], if end > 0 then end - 1 else 0)
  {
    var i := 1;
    while i < end
      invariant 1 <= i && (i <= end || end == 0)
      invariant multiset(segments[..]) == multiset(old(segments[..]))
      invariant Passed(segments[..], i - 1, end)
    {
      PassStep(segments[..], i, end);
      if segments[i] < segments[i - 1] {
        Swap(segments, i, i - 1);
      }
      i := i + 1;
    }
    PassDone(segments[..], end);
  }

  /** `sortSegments`: the bases in rising order, and no others. */
  method SortSegments(segments: array<int>)
    modifies segments
    ensures multiset(segments[..]) == multiset(old(segments[..]))
    ensures Sorted(segments[..], 0)
    ensures Distinct(old(segments[..])) ==> Ascending(segments[..])
  {
    var n := 0;
    while n <= segments.Length
      invariant 0 <= n <= segments.Length + 1
      invariant multiset(segments[..]) == multiset(old(segments[..]))
      invariant Sorted(segments[..], if n <= segments.Length then segments.Length - n else 0)
    {
      Pass(segments, segments.Length - n);
      n := n + 1;
    }
    if Distinct(old(segments[..])) {
      SameElements(old(segments[..]), segments[..]);
    }
  }
}
