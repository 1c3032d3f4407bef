/** The queue of deliveries to other nodes, whose scan delivers again while it is running. */
module NodeQueues {
  import opened InFlightHeap

  /** The map files exactly these items, each under its number. */
  ghost predicate Filed(data: map<string, Item>, members: set<Item>) {
    && (forall k {:trigger k in data} {:trigger data[k]} :: k in data ==> data[k] in members && data[k].key == k)
    && (forall x {:trigger x in members} :: x in members ==> x.key in data && data[x.key] == x)
  }

  function Filing(data: map<string, Item>, x: Item): map<string, Item> {
    if x.key in data then data else data[x.key := x]
  }

  /** One more item on the heap is filed exactly when its number is not taken. */
  lemma FilesMore(data: map<string, Item>, members: set<Item>, x: Item)
    requires Filed(data, members) && x !in members
    ensures Filed(Filing(data, x), members + {x}) <==> x.key !in data
  {
    if x.key in data {
      assert data[x.key] != x;
    }
  }

  /** One of the items is due at another time. */
  function Later(pris: map<Item, int>, x: Item, t: int): map<Item, int> {
    pris[x := t]
  }

  class NodeInFlightQueue {
    const pq: InFlightPqueue
    var data: map<string, Item>

    ghost predicate Valid()
      reads this, pq, pq.a, pq.members
    {
      pq.Valid() && Filed(data, pq.members)
    }

    constructor ()
      ensures Valid() && pq.members == {} && fresh(pq) && fresh(pq.a)
    {
      pq := new InFlightPqueue(1024);
      data := map[];
    }

    /** `startInFlightTimeout`: map and heap go on holding the same items exactly when the number is not filed yet. */
    method Start(x: Item, pri: int)
      requires Valid() && x !in pq.members
      modifies this, pq, pq.a, pq.members`index, x
      ensures Valid() <==> x.key !in old(data)
      ensures pq.Valid() && (pq.a == old(pq.a) || fresh(pq.a))
      ensures pq.members == old(pq.members) + {x} && x.pri == pri
      ensures data == Filing(old(data), x)
    {
      FilesMore(data, pq.members, x);
      x.pri := pri;
      if x.key !in data {
        data := data[x.key := x];
      }
      pq.Push(x);
    }

    /** `finishMessage` */
    method Finish(key: string) returns (ok: bool)
      requires Valid()
      modifies this, pq, pq.a, pq.members`index
      ensures Valid() && pq.a == old(pq.a) && (ok <==> key in old(data))
      ensures pq.members == old(pq.members) - if ok then {old(data)[key]} else {}
    {
      if key !in data {
        return false;
      }
      var x := data[key];
      data := data - {key};
      if x.index != -1 {
        var y := pq.Remove(x.index);
      }
      ok := true;
    }

    /** These items are due at these times. */
    ghost predicate HavePris(pris: map<Item, int>)
      reads pris.Keys`pri
    {
      forall y {:trigger y.pri} {:trigger pris[y]} :: y in pris ==> y.pri == pris[y]
    }

    /**
     `startDeliveryNodeData`: the item is queued for another try before the call is made, and taken off if it succeeds.
     */
    method Deliver(x: Item, now: int, timeout: int, succeeds: bool, ghost pris: map<Item, int>)
      requires Valid() && x !in pq.members && x.key !in data && HavePris(pris)
      modifies this, pq, pq.a, pq.members`index, x
      ensures Valid() && (pq.a == old(pq.a) || fresh(pq.a))
      ensures pq.members == old(pq.members) + (if succeeds then {} else {x}) && x.pri == now + timeout
      ensures HavePris(Later(pris, x, now + timeout))
    {
      Start(x, now + timeout);
      if !succeeds {
        return;
      }
      var ok := Finish(x.key);
    }

    /** `due` is the items on the heap that are due at `t`. */
    ghost predicate Due(due: set<Item>, t: int)
      reads this, pq, pq.members
    {
      due <= pq.members && forall x {:trigger x in due} :: x in pq.members ==> (x in due <==> x.pri <= t)
    }

    /** One round of the scan up to the delivery: the earliest item, if it is due, leaves the heap and the map. */
    method Shift(t: int, ghost due: set<Item>) returns (x: Item?, ok: bool)
      requires Valid() && Due(due, t)
      modifies this, pq, pq.a, pq.members`index
      ensures Valid() && (pq.a == old(pq.a) || fresh(pq.a))
      ensures x == null ==> pq.members == old(pq.members) && Due(due, t) && due == {}
      ensures x != null ==> ok && x in due && x.key !in data && Due(due - {x}, t)
      ensures x != null ==> pq.members == old(pq.members) - {x}
    {
      var wait;
      x, wait := pq.PeekAndShift(t);
      ok := x != null && x.key in data;
      if ok {
        data := data - {x.key};
      }
    }

    /** One whole round: the earliest item, if it is due, is tried once more, due again `timeout` from then. */
    method Round(t: int, timeout: int, now: int, succeeds: bool, ghost due: set<Item>, ghost pris: map<Item, int>)
      returns (x: Item?, ok: bool, ghost later: map<Item, int>)
      requires Valid() && Due(due, t) && now + timeout > t && HavePris(pris)
      modifies this, pq, pq.a, pq.members
      ensures Valid() && (pq.a == old(pq.a) || fresh(pq.a))
      ensures x == null ==> pq.members == old(pq.members) && Due(due, t) && due == {}
      ensures x != null ==> ok && x in due && Due(due - {x}, t)
      ensures x != null ==> pq.members == if succeeds then old(pq.members) - {x} else old(pq.members)
      ensures x != null ==> x.pri == now + timeout
      ensures HavePris(later) && later == if x == null then pris else Later(pris, x, now + timeout)
    {
      later := pris;
      x, ok := Shift(t, due);
      if x != null && ok {
        Deliver(x, now, timeout, succeeds, pris);
        later := Later(pris, x, now + timeout);
      }
    }

    /**
     The scan, which puts every item back before it calls its node. Provided that a new try is always due after `t`,
     it ends: each round leaves one item less that is due. Every item that was due is tried once; it has left the
     queue if and only if its call succeeded; and what is in the queue is due later, what has been tried `timeout`
     after its try and all else when it was due before.
     */
    method ProcessInFlightQueue(t: int, timeout: int, clock: nat -> int, answers: nat -> bool, ghost due: set<Item>)
      returns (tries: seq<Item>)
      requires Valid() && Due(due, t) && forall i: nat :: clock(i) + timeout > t
      modifies this, pq, pq.a, pq.members
      ensures Valid() && (pq.a == old(pq.a) || fresh(pq.a)) && Due({}, t)
      ensures Tried(old(pq.members), pq.members, due, {}, tries, answers)
      ensures forall i :: 0 <= i < |tries| ==> tries[i].pri == clock(i) + timeout
      ensures forall y {:trigger y.pri} :: y in old(pq.members) && y !in tries ==> y.pri == old(y.pri)
    {
      tries := [];
      ghost var rest, was: map<Item, int> := due, map y: Item | y in pq.members :: y.pri;
      ghost var pris := was;
      while true
        invariant Valid() && (pq.a == old(pq.a) || fresh(pq.a)) && Due(rest, t) && pq.members <= old(pq.members)
        invariant Tried(old(pq.members), pq.members, due, rest, tries, answers)
        invariant pris == AfterTries(was, tries, timeout, clock) && HavePris(pris)
        decreases rest
      {
        ghost var members := pq.members;
        var now, succeeds := clock(|tries|), answers(|tries|);
        var x, ok, later := Round(t, timeout, now, succeeds, rest, pris);
        if x == null || !ok {
          break;
        }
        var y: Item := x;
        TriesMore(old(pq.members), members, pq.members, due, rest, tries, answers, y, succeeds);
        TriedMore(was, tries, timeout, clock, y, now, pris, later);
        tries, rest, pris := tries + [y], rest - {y}, later;
      }
      AfterTriesIs(was, tries, timeout, clock);
    }
  }

  /** These of the due items have been tried, once each; those whose call succeeded have left. */
  ghost predicate Tried(was: set<Item>, members: set<Item>, due: set<Item>, rest: set<Item>, tries: seq<Item>,
                        answers: nat -> bool) {
    && due <= was && rest <= due && rest <= members
    && (forall x {:trigger x in rest} {:trigger x in tries} :: x in due ==> (x in rest <==> x !in tries))
    && (forall i {:trigger tries[i]} :: 0 <= i < |tries| ==> tries[i] in due)
    && (forall i, j {:trigger tries[i], tries[j]} :: 0 <= i < j < |tries| ==> tries[i] != tries[j])
    && (forall x {:trigger x in members} :: x in members ==> x in was)
    && (forall x {:trigger x in was} :: x in was && x !in tries ==> x in members)
    && (forall i {:trigger tries[i]} :: 0 <= i < |tries| ==> (tries[i] in members <==> !answers(i)))
  }

  /** When the items are due after these tries: `timeout` after its last try, or else as before. */
  function AfterTries(was: map<Item, int>, tries: seq<Item>, timeout: int, clock: nat -> int): map<Item, int> {
    if tries == [] then was
    else
      var n := |tries| - 1;
      Later(AfterTries(was, tries[..n], timeout, clock), tries[n], clock(n) + timeout)
  }

  lemma TriedMore(was: map<Item, int>, tries: seq<Item>, timeout: int, clock: nat -> int, x: Item, now: int,
                  pris: map<Item, int>, later: map<Item, int>)
    requires now == clock(|tries|)
    requires pris == AfterTries(was, tries, timeout, clock) && later == Later(pris, x, now + timeout)
    ensures later == AfterTries(was, tries + [x], timeout, clock)
  {
    assert (tries + [x])[..|tries|] == tries;
  }

  lemma {:induction false} AfterTriesIs(was: map<Item, int>, tries: seq<Item>, timeout: int, clock: nat -> int)
    requires forall i :: 0 <= i < |tries| ==> tries[i] in was
    requires forall i, j {:trigger tries[i], tries[j]} :: 0 <= i < j < |tries| ==> tries[i] != tries[j]
    ensures var pris := AfterTries(was, tries, timeout, clock);
            && pris.Keys == was.Keys
            && (forall i :: 0 <= i < |tries| ==> pris[tries[i]] == clock(i) + timeout)
            && (forall y :: y in was && y !in tries ==> pris[y] == was[y])
  {
    if tries != [] {
      var n := |tries| - 1;
      AfterTriesIs(was, tries[..n], timeout, clock);
      assert forall y :: y in tries <==> y in tries[..n] || y == tries[n];
    }
  }

  lemma TriesMore(was: set<Item>, before: set<Item>, members: set<Item>, due: set<Item>, rest: set<Item>,
                  tries: seq<Item>, answers: nat -> bool, x: Item, succeeds: bool)
    requires Tried(was, before, due, rest, tries, answers) && x in rest && succeeds == answers(|tries|)
    requires members == if succeeds then before - {x} else before
    ensures Tried(was, members, due, rest - {x}, tries + [x], answers)
  {
  }
}
