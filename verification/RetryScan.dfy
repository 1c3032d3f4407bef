/** The timeout scan of the retry queue while deliveries are acknowledged. */
module RetryScans {
  import opened InFlightHeap
  import opened RetryQueues

  /** One whole acknowledgement. */
  method Acknowledge(q: RetryQueue, key: string)
    requires q.Valid() && q.b.starting == {}
    modifies q, q.pq, q.pq.a, q.pq.members`index
    ensures q.Valid() && q.pq.a == old(q.pq.a) && q.messages == old(q.messages) - {key}
    ensures q.b == if key in old(q.messages) then AckedBooks(old(q.b), old(q.messages)[key]) else old(q.b)
  {
    var x := q.FinishA(key);
    if x != null {
      q.FinishB(x);
    }
  }

  ghost function AckedBooks(b: Books, x: Item): Books {
    b.FinishA(x).FinishB(x)
  }

  /**
   These keys have been acknowledged: their deliveries have left the map and the heap, and nothing else has changed.
   */
  ghost predicate Acked(was: Books, b: Books, keys: seq<string>) {
    && b.starting == was.starting == {} && b.finishing == was.finishing && b.timing == was.timing
    && b.timedOut == was.timedOut && b.started == was.started
    && b.filed <= was.filed && b.queued <= was.queued
    && b.filed + b.acked == was.filed + was.acked && was.acked <= b.acked
    && forall x {:trigger x in b.filed} :: x in was.filed ==> (x in b.filed <==> x.key !in keys)
  }

  lemma AckedMore(was: Books, b: Books, messages: map<string, Item>, keys: seq<string>, key: string)
    requires Acked(was, b, keys) && InOrder(b, messages) && b.finishing == {}
    ensures Acked(was, if key in messages then AckedBooks(b, messages[key]) else b, keys + [key])
  {
    assert b.Agree();
    assert forall x {:trigger x in b.filed} :: x in b.filed ==> x.key in messages && messages[x.key] == x;
    assert forall k :: k in keys + [key] <==> k in keys || k == key;
  }

  method AckAll(q: RetryQueue, keys: seq<string>)
    requires q.Valid() && q.b.starting == {} && q.b.finishing == {}
    modifies q, q.pq, q.pq.a, q.pq.members`index
    ensures q.Valid() && q.pq.a == old(q.pq.a) && Acked(old(q.b), q.b, keys) && q.pq.members <= old(q.pq.members)
  {
    var i := 0;
    assert keys[..0] == [];
    while i < |keys|
      invariant i <= |keys| && q.Valid() && q.pq.a == old(q.pq.a)
      invariant Acked(old(q.b), q.b, keys[..i]) && q.b.finishing == {}
      invariant q.pq.members <= old(q.pq.members)
      decreases |keys| - i
    {
      AckedMore(old(q.b), q.b, q.messages, keys[..i], keys[i]);
      assert keys[..i + 1] == keys[..i] + [keys[i]];
      Acknowledge(q, keys[i]);
      i := i + 1;
    }
    assert keys[..i] == keys;
  }

  /** What is left of these items when the ones with such keys have been acknowledged. */
  ghost function Left(items: set<Item>, keys: seq<string>): set<Item> {
    set y | y in items && y.key !in keys
  }

  /** The rest of a round: acknowledgements, and then the second section of the timeout. */
  method AckThenTime(q: RetryQueue, x: Item, keys: seq<string>) returns (ok: bool)
    requires q.Valid() && x in q.b.filed && q.b.timing == {x} && q.b.starting == {} && q.b.finishing == {}
    modifies q, q.pq, q.pq.a, q.pq.members`index
    ensures q.Valid() && q.Quiet() && q.pq.a == old(q.pq.a) && q.pq.members <= old(q.pq.members)
    ensures (ok <==> x.key !in keys) && x !in q.b.filed && (if ok then x in q.b.timedOut else x in q.b.acked)
    ensures q.b.filed == Left(old(q.b).filed - {x}, keys) && q.b.started == old(q.b).started
    ensures q.b.timedOut == old(q.b).timedOut + if ok then {x} else {}
  {
    AckAll(q, keys);
    assert q.b.filed == Left(old(q.b).filed, keys);
    ok := q.TimeB(x);
  }

  /** The earliest of these items, which is due. */
  ghost predicate FirstDue(items: set<Item>, due: map<Item, int>, t: int, x: Item) {
    && x in items && x in due && due[x] <= t
    && forall y {:trigger y in items} :: y in items ==> y in due && due[x] <= due[y]
  }

  ghost predicate NoneDue(items: set<Item>, due: map<Item, int>, t: int) {
    forall y {:trigger y in items} :: y in items ==> y in due && due[y] > t
  }

  /**
   One round of the scan, with acknowledgements between its two sections: the item shifted off the heap is the
   earliest, and times out exactly when it is not among them.
   */
  method Round(q: RetryQueue, t: int, keys: seq<string>, ghost due: map<Item, int>) returns (x: Item?, ok: bool)
    requires q.Valid() && q.Quiet() && q.b.filed <= due.Keys && q.Priorities(due)
    modifies q, q.pq, q.pq.a, q.pq.members`index
    ensures q.Valid() && q.Quiet() && (q.pq.a == old(q.pq.a) || fresh(q.pq.a)) && q.pq.members <= old(q.pq.members)
    ensures x == null ==> q.b == old(q.b) && NoneDue(q.b.filed, due, t)
    ensures x != null ==> FirstDue(old(q.b).filed, due, t, x) && q.b.filed == Left(old(q.b).filed - {x}, keys)
    ensures x != null ==> (ok <==> x.key !in keys) && (if ok then x in q.b.timedOut else x in q.b.acked)
    ensures q.b.started == old(q.b).started
    ensures q.b.timedOut == old(q.b).timedOut + if x != null && ok then {x} else {}
  {
    q.QuietAgree();
    ok := false;
    x := q.TimeA(t);
    if x != null {
      assert forall y {:trigger y in old(q.b).filed} :: y in old(q.b).filed ==> y == x || y in q.b.queued;
      assert FirstDue(old(q.b).filed, due, t, x);
      ok := AckThenTime(q, x, keys);
    }
  }

  // ---------- the whole scan ----------

  /**
   What is left of the filed items when these have timed out one after the other, with acknowledgements in each round.
   */
  ghost function After(items: set<Item>, acks: nat -> seq<string>, handed: seq<Item>): set<Item> {
    if handed == [] then items
    else
      var n := |handed| - 1;
      Left(After(items, acks, handed[..n]) - {handed[n]}, acks(n))
  }

  /** Each of these was the earliest of what was left, due, and not acknowledged in its round. */
  ghost predicate InTurn(items: set<Item>, due: map<Item, int>, acks: nat -> seq<string>, t: int, handed: seq<Item>) {
    forall i {:trigger handed[i]} :: 0 <= i < |handed| ==>
      FirstDue(After(items, acks, handed[..i]), due, t, handed[i]) && handed[i].key !in acks(i)
  }

  /**
   A scan hands these items out and ends: with nothing due left, or because the item it has shifted, `hit`, is
   acknowledged in its round. These items are filed in the end.
   */
  ghost predicate Scans(items: set<Item>, due: map<Item, int>, acks: nat -> seq<string>, t: int,
                        handed: seq<Item>, hit: Item?, end: set<Item>) {
    var left, n := After(items, acks, handed), |handed|;
    && InTurn(items, due, acks, t, handed)
    && if hit == null then NoneDue(left, due, t) && end == left
       else FirstDue(left, due, t, hit) && hit.key in acks(n) && end == Left(left - {hit}, acks(n))
  }

  lemma InTurnMore(items: set<Item>, due: map<Item, int>, acks: nat -> seq<string>, t: int, handed: seq<Item>, x: Item)
    requires InTurn(items, due, acks, t, handed)
    requires FirstDue(After(items, acks, handed), due, t, x) && x.key !in acks(|handed|)
    ensures InTurn(items, due, acks, t, handed + [x])
    ensures After(items, acks, handed + [x]) == Left(After(items, acks, handed) - {x}, acks(|handed|))
  {
    var more := handed + [x];
    assert more[..|handed|] == handed;
    forall i {:trigger more[i]} | 0 <= i < |more|
      ensures FirstDue(After(items, acks, more[..i]), due, t, more[i]) && more[i].key !in acks(i)
    {
      if i < |handed| {
        assert more[..i] == handed[..i] && more[i] == handed[i];
      }
    }
  }

  /** The scan of the queue, with any acknowledgements between the two sections of each round, is such a scan. */
  method ProcessInFlightQueue(q: RetryQueue, t: int, acks: nat -> seq<string>, ghost due: map<Item, int>)
    returns (handed: seq<Item>, hit: Item?)
    requires q.Valid() && q.Quiet() && due.Keys == q.b.filed && q.Priorities(due)
    modifies q, q.pq, q.pq.a, q.pq.members`index
    ensures q.Valid() && q.Quiet() && Scans(old(q.b).filed, due, acks, t, handed, hit, q.b.filed)
    ensures q.b.timedOut == old(q.b).timedOut + Elements(handed) && q.b.started == old(q.b).started
  {
    handed, hit := [], null;
    ghost var items := q.b.filed;
    while true
      invariant q.Valid() && q.Quiet() && (q.pq.a == old(q.pq.a) || fresh(q.pq.a)) && q.Priorities(due)
      invariant q.pq.members <= old(q.pq.members) && q.b.filed <= due.Keys
      invariant InTurn(items, due, acks, t, handed) && q.b.filed == After(items, acks, handed)
      invariant q.b.timedOut == old(q.b).timedOut + Elements(handed) && q.b.started == old(q.b).started
      decreases q.b.filed
    {
      var x, ok := Round(q, t, acks(|handed|), due);
      if x == null {
        break;
      }
      if !ok {
        hit := x;
        break;
      }
      InTurnMore(items, due, acks, t, handed, x);
      var y: Item := x;
      handed := handed + [y];
    }
  }

  // ---------- what such a scan hands out ----------

  /** Its key was acknowledged within the first `n` rounds. */
  ghost predicate AckedWithin(y: Item, acks: nat -> seq<string>, n: nat) {
    exists i: nat {:trigger acks(i)} :: i < n && y.key in acks(i)
  }

  lemma AckedLonger(y: Item, acks: nat -> seq<string>, n: nat)
    ensures AckedWithin(y, acks, n + 1) <==> AckedWithin(y, acks, n) || y.key in acks(n)
  {
  }

  /** Left are the items that have neither timed out nor been acknowledged. */
  lemma {:induction false} AfterIs(items: set<Item>, acks: nat -> seq<string>, handed: seq<Item>, y: Item)
    ensures y in After(items, acks, handed) <==> y in items && y !in handed && !AckedWithin(y, acks, |handed|)
    decreases |handed|
  {
    if handed != [] {
      var n := |handed| - 1;
      AfterIs(items, acks, handed[..n], y);
      AckedLonger(y, acks, n);
      assert handed == handed[..n] + [handed[n]];
    }
  }

  lemma {:induction false} AfterShrinks(items: set<Item>, acks: nat -> seq<string>, handed: seq<Item>, i: nat, j: nat)
    requires i <= j <= |handed|
    ensures After(items, acks, handed[..j]) <= After(items, acks, handed[..i]) <= items
    ensures forall k {:trigger handed[k]} :: i <= k < j ==> handed[k] !in After(items, acks, handed[..j])
    decreases j
  {
    if i < j {
      assert handed[..j][..j - 1] == handed[..j - 1];
      AfterShrinks(items, acks, handed, i, j - 1);
    } else if i > 0 {
      assert handed[..i][..i - 1] == handed[..i - 1];
      AfterShrinks(items, acks, handed, i - 1, i - 1);
    }
  }

  /**
   What it hands out was due, the earliest first, each once. If it was not cut short, that is everything due that was
   not acknowledged meanwhile; with no acknowledgement at all it is not cut short, and hands out exactly what was due.
   */
  lemma ScanHandsOut(items: set<Item>, due: map<Item, int>, acks: nat -> seq<string>, t: int,
                     handed: seq<Item>, hit: Item?, end: set<Item>)
    requires Scans(items, due, acks, t, handed, hit, end) && items <= due.Keys
    ensures Elements(handed) <= items && forall x :: x in handed ==> x in due && due[x] <= t
    ensures forall i, j :: 0 <= i < j < |handed| ==> due[handed[i]] <= due[handed[j]] && handed[i] != handed[j]
    ensures hit == null ==>
              end == set x | x in items && due[x] > t && !AckedWithin(x, acks, |handed|)
    ensures hit == null ==>
              forall x :: x in items && due[x] <= t ==> x in handed || AckedWithin(x, acks, |handed|)
    ensures (forall i: nat :: acks(i) == []) ==>
              && hit == null && Elements(handed) == (set x | x in items && due[x] <= t)
              && end == (set x | x in items && due[x] > t)
  {
    forall i | 0 <= i < |handed|
      ensures handed[i] in items && due[handed[i]] <= t
    {
      AfterShrinks(items, acks, handed, i, i);
    }
    forall i, j | 0 <= i < j < |handed|
      ensures due[handed[i]] <= due[handed[j]] && handed[i] != handed[j]
    {
      AfterShrinks(items, acks, handed, i, j);
      AfterShrinks(items, acks, handed, i + 1, j);
      assert handed[i] !in After(items, acks, handed[..j]);
    }
    forall x
      ensures x in After(items, acks, handed) <==> x in items && x !in handed && !AckedWithin(x, acks, |handed|)
    {
      AfterIs(items, acks, handed, x);
    }
  }

  // ---------- when it is cut short ----------

  /** No two of these items are due at the same time. */
  ghost predicate DistinctTimes(items: set<Item>, due: map<Item, int>) {
    forall x, y {:trigger due[x], due[y]} ::
      x in items && y in items && x in due && y in due && due[x] == due[y] ==> x == y
  }

  /** From round `n` on the earliest of what is left is never acknowledged in its own round. */
  ghost predicate NeverHit(items: set<Item>, due: map<Item, int>, acks: nat -> seq<string>, t: int, n: nat)
    decreases items
  {
    forall x {:trigger FirstDue(items, due, t, x)} :: x in items && FirstDue(items, due, t, x) ==>
      x.key !in acks(n) && NeverHit(Left(items - {x}, acks(n)), due, acks, t, n + 1)
  }

  /**
   A scan is not cut short if the earliest due item is never acknowledged in its own round; and only then, when no two
   items are due at the same time.
   */
  lemma CutIfHit(items: set<Item>, due: map<Item, int>, acks: nat -> seq<string>, t: int,
                 handed: seq<Item>, hit: Item?, end: set<Item>)
    requires Scans(items, due, acks, t, handed, hit, end)
    ensures NeverHit(items, due, acks, t, 0) ==> hit == null
    ensures DistinctTimes(items, due) ==> (hit == null <==> NeverHit(items, due, acks, t, 0))
  {
    assert handed[..0] == [];
    HitFromRound(items, due, acks, t, handed, hit, end, 0);
  }

  lemma {:induction false} HitFromRound(items: set<Item>, due: map<Item, int>, acks: nat -> seq<string>, t: int,
                                        handed: seq<Item>, hit: Item?, end: set<Item>, i: nat)
    requires Scans(items, due, acks, t, handed, hit, end) && i <= |handed|
    ensures NeverHit(After(items, acks, handed[..i]), due, acks, t, i) ==> hit == null
    ensures DistinctTimes(items, due) && hit == null ==> NeverHit(After(items, acks, handed[..i]), due, acks, t, i)
    decreases |handed| - i
  {
    var left := After(items, acks, handed[..i]);
    AfterShrinks(items, acks, handed, i, i);
    if i < |handed| {
      assert handed[..i + 1][..i] == handed[..i];
      HitFromRound(items, due, acks, t, handed, hit, end, i + 1);
      assert FirstDue(left, due, t, handed[i]);
    } else {
      assert handed[..i] == handed;
    }
  }

  /**
   If in some round the one earliest due item is acknowledged, the scan ends there, and every other item that is left
   and not acknowledged in this round stays filed, due or not.
   */
  lemma EndsWhereHit(items: set<Item>, due: map<Item, int>, acks: nat -> seq<string>, t: int,
                     handed: seq<Item>, hit: Item?, end: set<Item>, i: nat, x: Item)
    requires Scans(items, due, acks, t, handed, hit, end) && i <= |handed| && DistinctTimes(items, due)
    requires FirstDue(After(items, acks, handed[..i]), due, t, x) && x.key in acks(i)
    ensures |handed| == i && hit == x && end == Left(After(items, acks, handed) - {x}, acks(i))
  {
    if i < |handed| {
      FirstIsNext(items, due, acks, t, handed, i, x);
    } else {
      AfterShrinks(items, acks, handed, i, i);
      assert handed[..i] == handed;
    }
  }

  lemma FirstIsNext(items: set<Item>, due: map<Item, int>, acks: nat -> seq<string>, t: int, handed: seq<Item>,
                    i: nat, x: Item)
    requires InTurn(items, due, acks, t, handed) && i < |handed| && DistinctTimes(items, due)
    requires FirstDue(After(items, acks, handed[..i]), due, t, x)
    ensures x == handed[i] && x.key !in acks(i)
  {
    AfterShrinks(items, acks, handed, i, i);
    assert FirstDue(After(items, acks, handed[..i]), due, t, handed[i]);
  }

  /** A delivery is started, both sections one after the other. */
  method Started(q: RetryQueue, key: string, pri: int) returns (x: Item)
    requires q.Valid() && q.Quiet() && q.b.Free(key)
    modifies q, q.pq, q.pq.a, q.pq.members`index
    ensures q.Valid() && q.Quiet() && (q.pq.a == old(q.pq.a) || fresh(q.pq.a)) && fresh(x)
    ensures q.b.filed == old(q.b).filed + {x} && q.b.Keyed() == old(q.b).Keyed() + {x}
    ensures q.pq.members == old(q.pq.members) + {x} && x.key == key && x.pri == pri
  {
    x := new Item(key, 0);
    FreeIsNotFiled(q.b, q.messages, key);
    q.StartA(x, pri);
    q.StartB(x);
  }

  method TwoDue() returns (q: RetryQueue, x: Item, y: Item)
    ensures fresh(q) && fresh(q.pq) && fresh(q.pq.a) && fresh(x) && fresh(y)
    ensures q.Valid() && q.Quiet() && q.b.filed == q.pq.members == {x, y}
    ensures x.key == "1_1" && y.key == "2_1" && x.pri == 1 && y.pri == 2
  {
    q := new RetryQueue();
    x := Started(q, "1_1", 1);
    assert "1_1"[0] != "2_1"[0];
    y := Started(q, "2_1", 2);
  }

  /** A scan that is cut short leaves the second of two due deliveries behind. */
  method LeavesDueBehind() returns (q: RetryQueue, x: Item, y: Item, handed: seq<Item>, hit: Item?)
    ensures q.Valid() && x.pri <= 5 && y.pri <= 5
    ensures handed == [] && hit == x && q.b.filed == {y}
  {
    q, x, y := TwoDue();
    ghost var due := map[x := 1, y := 2];
    var acks: nat -> seq<string> := i => ["1_1"];
    handed, hit := ProcessInFlightQueue(q, 5, acks, due);
    FirstOfTwo(x, y, due, acks, handed, hit, q.b.filed);
  }

  lemma FirstOfTwo(x: Item, y: Item, due: map<Item, int>, acks: nat -> seq<string>, handed: seq<Item>, hit: Item?,
                   end: set<Item>)
    requires Scans({x, y}, due, acks, 5, handed, hit, end) && due == map[x := 1, y := 2] && acks(0) == ["1_1"]
    requires x.key == "1_1" && y.key == "2_1"
    ensures handed == [] && hit == x && end == {y}
  {
    assert handed[..0] == [];
    assert "1_1"[0] != "2_1"[0];
    assert FirstDue({x, y}, due, 5, x);
    EndsWhereHit({x, y}, due, acks, 5, handed, hit, end, 0, x);
  }
}
