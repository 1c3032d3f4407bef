/** The retry queue: a keyed map and a heap kept in step by separate lock sections. */
module RetryQueues {
  import opened InFlightHeap

  /**
   What is known of every item. A start, an acknowledgement and a timeout are two sections each under the queue's
   mutex, and any other section may run in between: `starting`, `finishing` and `timing` are the items between
   their two sections. `started`, `acked` and `timedOut` are history.
   */
  datatype Books = Books(
    queued: set<Item>, filed: set<Item>, starting: set<Item>, finishing: set<Item>, timing: set<Item>,
    started: set<Item>, acked: set<Item>, timedOut: set<Item>, owner: map<string, Item>)
  {
    /** The items whose key is filed, or is or may be looked up by a timeout. */
    ghost function Keyed(): set<Item> {
      queued + filed + timing
    }

    /** The map and the heap agree, but for the items between two sections. */
    ghost predicate Agree() {
      && queued <= filed + finishing && filed <= queued + timing + starting
      && starting <= filed && starting !! queued && starting !! timing
      && finishing !! filed && timing !! queued
    }

    /** Every started item is still filed, or was acknowledged, or timed out: exactly one of these. */
    ghost predicate Accounted() {
      && started == filed + acked + timedOut
      && filed !! acked && filed !! timedOut && acked !! timedOut
      && finishing <= acked && timing <= filed + acked
    }

    /** No two of them have the same key. */
    ghost predicate Owned() {
      forall x {:trigger x in Keyed()} :: x in Keyed() ==> x.key in owner && owner[x.key] == x
    }

    /** No such item has the key. */
    ghost predicate Free(key: string) {
      forall x {:trigger x in Keyed()} :: x in Keyed() ==> x.key != key
    }

    /** The map files exactly these items. */
    ghost predicate Filed(messages: map<string, Item>) {
      && (forall k {:trigger messages[k]} {:trigger k in messages} :: k in messages ==>
            messages[k] in filed && messages[k].key == k)
      && (forall x {:trigger x in filed} :: x in filed ==> x.key in messages && messages[x.key] == x)
    }

    ghost predicate Consistent(messages: map<string, Item>) {
      Agree() && Accounted() && Owned() && Filed(messages)
    }

    // ---------- the sections ----------

    ghost function StartA(x: Item): Books {
      this.(filed := filed + {x}, starting := starting + {x}, started := started + {x}, owner := owner[x.key := x])
    }

    /**
     The first section of a start, when its key is taken: the item is not filed, and will be put on the heap anyway.
     */
    ghost function Begun(messages: map<string, Item>, x: Item): Books {
      if x.key in messages then this.(starting := starting + {x}, started := started + {x}) else StartA(x)
    }

    ghost function StartB(x: Item): Books {
      this.(starting := starting - {x}, queued := queued + {x})
    }

    ghost function FinishA(x: Item): Books {
      this.(filed := filed - {x}, finishing := finishing + {x}, acked := acked + {x})
    }

    ghost function FinishB(x: Item): Books {
      this.(finishing := finishing - {x}, queued := queued - {x})
    }

    ghost function TimeA(x: Item): Books {
      this.(queued := queued - {x}, timing := timing + {x})
    }

    ghost function TimeB(x: Item): Books {
      if x in filed then this.(filed := filed - {x}, timing := timing - {x}, timedOut := timedOut + {x})
      else this.(timing := timing - {x})
    }
  }

  lemma NewItem(b: Books, messages: map<string, Item>, x: Item)
    requires InOrder(b, messages) && x !in b.started
    ensures x !in b.queued && x !in b.filed && x !in b.starting && x !in b.finishing && x !in b.timing
    ensures InOrder(b.Begun(messages, x), Filing(messages, x)) <==> b.Free(x.key)
  {
    assert b.Agree();
    StartAgrees(b, messages, x);
    var c := b.Begun(messages, x);
    assert InOrder(c, Filing(messages, x)) ==> c.Agree() && c.Consistent(Filing(messages, x));
  }

  lemma FreeIsNotFiled(b: Books, messages: map<string, Item>, key: string)
    requires InOrder(b, messages) && b.Free(key)
    ensures key !in messages
  {
    assert b.Agree();
    assert forall k {:trigger k in messages} :: k in messages ==> messages[k] in b.Keyed() && messages[k].key == k;
  }

  lemma FiledUnder(b: Books, messages: map<string, Item>, key: string)
    requires InOrder(b, messages) && key in messages
    ensures b.Consistent(messages) && messages[key] in b.filed && messages[key].key == key
  {
    assert b.Agree();
  }

  /** The books are consistent; stated so that who only passes this on need not look into it. */
  ghost predicate InOrder(b: Books, messages: map<string, Item>) {
    forall c: Books {:trigger c.Agree()} :: c == b ==> c.Consistent(messages)
  }

  ghost function EmptyBooks(): Books {
    Books({}, {}, {}, {}, {}, {}, {}, {}, map[])
  }

  lemma EmptyInOrder()
    ensures InOrder(EmptyBooks(), map[])
  {
    assert EmptyBooks().Consistent(map[]);
  }

  // ---------- every section keeps the books consistent ----------

  function Filing(messages: map<string, Item>, x: Item): map<string, Item> {
    if x.key in messages then messages else messages[x.key := x]
  }

  /** The first section of a start keeps the books consistent exactly when its key is free. */
  lemma StartAgrees(b: Books, messages: map<string, Item>, x: Item)
    requires b.Consistent(messages) && x !in b.started
    ensures b.Begun(messages, x).Consistent(Filing(messages, x)) <==> b.Free(x.key)
  {
    var c := b.Begun(messages, x);
    if b.Free(x.key) {
      StartAKeeps(b, messages, x);
    } else {
      var y :| y in b.Keyed() && y.key == x.key;
      assert x in c.starting && y in c.Keyed();
    }
  }

  lemma StartAKeeps(b: Books, messages: map<string, Item>, x: Item)
    requires b.Consistent(messages) && x !in b.started && b.Free(x.key)
    ensures x.key !in messages && b.StartA(x).Consistent(messages[x.key := x])
  {
    assert forall k {:trigger k in messages} :: k in messages ==> messages[k] in b.Keyed() && messages[k].key == k;
    var c := b.StartA(x);
    assert c.Keyed() == b.Keyed() + {x};
    forall y {:trigger y in c.Keyed()} | y in c.Keyed()
      ensures y.key in c.owner && c.owner[y.key] == y
    {
      if y != x {
        assert y in b.Keyed();
      }
    }
  }

  lemma StartBKeeps(b: Books, messages: map<string, Item>, x: Item)
    requires b.Consistent(messages) && x in b.starting
    ensures b.StartB(x).Consistent(messages)
  {
    FewerOwned(b, b.StartB(x));
  }

  /**
   Taking an item off the map for an acknowledgement keeps the books consistent exactly when its start has returned.
   */
  lemma FinishAAgrees(b: Books, messages: map<string, Item>, x: Item)
    requires b.Consistent(messages) && x in b.filed
    ensures b.FinishA(x).Agree() <==> x !in b.starting
    ensures b.FinishA(x).Consistent(messages - {x.key}) <==> x !in b.starting
  {
    if x !in b.starting {
      FewerOwned(b, b.FinishA(x));
      forall y | y in b.filed && y != x
        ensures y.key != x.key
      {
        assert messages[y.key] == y;
      }
    } else {
      assert x in b.FinishA(x).starting && x !in b.FinishA(x).filed;
    }
  }

  lemma FewerOwned(b: Books, c: Books)
    requires b.Owned() && c.Keyed() <= b.Keyed() && c.owner == b.owner
    ensures c.Owned()
  {
    forall y {:trigger y in c.Keyed()} | y in c.Keyed()
      ensures y.key in c.owner && c.owner[y.key] == y
    {
      assert y in b.Keyed();
    }
  }

  lemma FinishBKeeps(b: Books, messages: map<string, Item>, x: Item)
    requires b.Consistent(messages) && x in b.finishing
    ensures b.FinishB(x).Consistent(messages)
  {
    FewerOwned(b, b.FinishB(x));
  }

  lemma TimeAKeeps(b: Books, messages: map<string, Item>, x: Item)
    requires b.Consistent(messages) && x in b.queued
    ensures b.TimeA(x).Consistent(messages)
  {
    FewerOwned(b, b.TimeA(x));
  }

  /** The key of a shifted item leads to this item, or to none when it has been acknowledged in between. */
  lemma TimeBKeeps(b: Books, messages: map<string, Item>, x: Item)
    requires b.Consistent(messages) && x in b.timing
    ensures x.key in messages <==> x in b.filed
    ensures b.TimeB(x).Consistent(if x in b.filed then messages - {x.key} else messages)
  {
    assert x in b.Keyed();
    if x.key in messages {
      assert messages[x.key] in b.Keyed();
    }
    FewerOwned(b, b.TimeB(x));
    forall y | y in b.filed && y != x
      ensures y.key != x.key
    {
      assert y in b.Keyed();
    }
  }

  ghost function Elements(s: seq<Item>): set<Item> {
    set x | x in s
  }

  class RetryQueue {
    const pq: InFlightPqueue
    var messages: map<string, Item>
    ghost var b: Books

    /** Whoever will look at the index of an item outside the heap finds -1 there. */
    ghost predicate Shifted()
      reads this, b.finishing, b.timing
    {
      && (forall x {:trigger x in b.finishing} :: x in b.finishing ==> x in b.queued || x.index == -1)
      && (forall x {:trigger x in b.timing} :: x in b.timing ==> x.index == -1)
    }

    ghost predicate Valid()
      reads this, pq, pq.a, pq.members, b.finishing, b.timing
    {
      pq.Valid() && pq.members == b.queued && InOrder(b, messages) && Shifted()
    }

    constructor ()
      ensures Valid() && fresh(pq) && fresh(pq.a) && b == EmptyBooks() && messages == map[]
    {
      pq := new InFlightPqueue(1024);
      messages := map[];
      b := EmptyBooks();
      new;
      EmptyInOrder();
    }

    /**
     `startInFlightTimeout`, first section: the item is filed under its key, unless the key is taken. The queue stays
     in order exactly when no item with this key is filed, on the heap, or in a timeout.
     */
    method StartA(x: Item, pri: int)
      requires Valid() && x !in b.started
      modifies `messages, `b, x`pri
      ensures b == old(b).Begun(old(messages), x) && messages == Filing(old(messages), x) && x.pri == pri
      ensures pq.Valid() && pq.members == old(b).queued && x !in pq.members
      ensures Valid() <==> old(b).Free(x.key)
    {
      NewItem(b, messages, x);
      x.pri := pri;
      b := b.Begun(messages, x);
      if x.key in messages {
        return;
      }
      messages := messages[x.key := x];
    }

    /** `addToInFlightPQ` */
    method AddToInFlightPQ(x: Item)
      requires pq.Valid() && x !in pq.members
      modifies pq, pq.a, pq.members`index, x`index
      ensures pq.Valid() && (pq.a == old(pq.a) || fresh(pq.a)) && pq.members == old(pq.members) + {x}
    {
      pq.Push(x);
    }

    /** Second section of a start: the item is put on the heap. */
    method StartB(x: Item)
      requires Valid() && x in b.starting
      modifies `b, pq, pq.a, pq.members`index, x`index
      ensures Valid() && b == old(b).StartB(x) && (pq.a == old(pq.a) || fresh(pq.a))
    {
      StartBKeeps(b, messages, x);
      AddToInFlightPQ(x);
      b := b.StartB(x);
    }

    /**
     `finishMessage`, first section: the item filed under the key is taken off the map. The queue stays in order
     exactly when the item's start has returned.
     */
    method FinishA(key: string) returns (x: Item?)
      requires Valid()
      modifies `messages, `b
      ensures messages == old(messages) - {key} && (x == null <==> key !in old(messages))
      ensures x == null ==> b == old(b)
      ensures x != null ==> x == old(messages)[key] && x in old(b).filed && x.key == key && b == old(b).FinishA(x)
      ensures Valid() <==> x == null || x !in old(b).starting
    {
      if key !in messages {
        assert messages - {key} == messages;
        return null;
      }
      x := messages[key];
      FiledUnder(b, messages, key);
      FinishAAgrees(b, messages, x);
      messages, b := messages - {key}, b.FinishA(x);
    }

    /** `removeFromInFlightPQ`: whatever item is in the slot that `x` names leaves the heap; a wild index is a crash. */
    method RemoveFromInFlightPQ(x: Item) returns (y: Item?, ok: bool)
      requires pq.Valid()
      modifies pq, pq.a, pq.members`index
      ensures pq.Valid() && pq.a == old(pq.a)
      ensures ok <==> old(x.index) == -1 || 0 <= old(x.index) < old(pq.n)
      ensures y == null <==> !ok || old(x.index) == -1
      ensures y == null ==> pq.members == old(pq.members) && pq.n == old(pq.n)
      ensures y != null ==> y == old(pq.items)[old(x.index)] && y.index == -1 && pq.members == old(pq.members) - {y}
    {
      if x.index == -1 {
        return null, true;
      }
      if !(0 <= x.index < pq.n) {
        return null, false;
      }
      y := pq.Remove(x.index);
      ok := true;
    }

    /** Second section of an acknowledgement: the item is taken off the heap, unless a timeout has already done so. */
    method FinishB(x: Item)
      requires Valid() && x in b.finishing
      modifies `b, pq, pq.a, pq.members`index
      ensures Valid() && b == old(b).FinishB(x) && pq.a == old(pq.a)
    {
      FinishBKeeps(b, messages, x);
      FinishesOwnSlot(x);
      var y, ok := RemoveFromInFlightPQ(x);
      b := b.FinishB(x);
    }

    /** `processInFlightQueue`, first section: the first item due is taken off the heap. */
    method TimeA(t: int) returns (x: Item?)
      requires Valid()
      modifies `b, pq, pq.a, pq.members`index
      ensures Valid() && (pq.a == old(pq.a) || fresh(pq.a))
      ensures x == null ==> b == old(b) && forall y :: y in b.queued ==> y.pri > t
      ensures x != null ==> x in old(b).queued && b == old(b).TimeA(x)
      ensures x != null ==> x.pri <= t && forall y :: y in b.queued ==> x.pri <= y.pri
    {
      var wait;
      x, wait := pq.PeekAndShift(t);
      if x != null {
        TimeAKeeps(b, messages, x);
        b := b.TimeA(x);
      }
    }

    /** Second section: the item is taken off the map by its key, unless an acknowledgement has already done so. */
    method TimeB(x: Item) returns (ok: bool)
      requires Valid() && x in b.timing
      modifies `messages, `b
      ensures Valid() && b == old(b).TimeB(x) && (ok <==> x in old(b).filed)
      ensures messages == if ok then old(messages) - {x.key} else old(messages)
    {
      TimeBKeeps(b, messages, x);
      ok := x.key in messages;
      if ok {
        messages := messages - {x.key};
      }
      b := b.TimeB(x);
    }

    /** When the second section of an acknowledgement runs, the item's index is its own slot, or -1. */
    lemma FinishesOwnSlot(x: Item)
      requires Valid() && x in b.finishing
      ensures if x in pq.members then 0 <= x.index < pq.n && pq.a[x.index] == x else x.index == -1
    {
      if x in pq.members {
        assert pq.items[x.index] == x;
      }
    }

    /**
     The index an acknowledgement finds in a filed item is right exactly when its start has returned: it is the item's
     own slot, or -1 because a timeout has taken the item off the heap. Before, it is wrong for a new item, where it is
     still 0, and for a copy of a redelivered one, where it is -1 although the item is still to be put on the heap.
     */
    lemma AcksOwnSlot(x: Item)
      requires Valid() && x in b.filed
      ensures x !in b.starting
         <==> if x in pq.members then 0 <= x.index < pq.n && pq.items[x.index] == x
              else x.index == -1 && x in b.timing
      ensures x in b.starting && x.index == 0 ==> x.index != -1 && !(x.index < pq.n && pq.items[x.index] == x)
      ensures x in b.starting && x.index == -1 ==> x !in pq.members && x !in b.timing
    {
      assert b.Agree();
      if x in pq.members {
        assert pq.items[x.index] == x;
      }
      if x in b.starting && pq.n > 0 {
        assert pq.items[0] in pq.members;
      }
    }

    /** No item is between two sections. */
    ghost predicate Quiet()
      reads this
    {
      b.starting == {} && b.finishing == {} && b.timing == {}
    }

    /** With nothing in between, the map and the heap hold the same items. */
    lemma QuietAgree()
      requires Valid() && Quiet()
      ensures pq.members == b.filed == b.queued
    {
      assert b.Agree();
    }

    /** `due` holds the priorities of these items. */
    ghost predicate Priorities(due: map<Item, int>)
      reads due.Keys
    {
      forall x {:trigger due[x]} {:trigger x.pri} :: x in due ==> due[x] == x.pri
    }
  }

  /** The first sections of a start and of its acknowledgement, one after the other: nothing is filed in the end. */
  method StartAndAck(q: RetryQueue, x: Item, pri: int)
    requires q.Valid() && x !in q.b.started && q.b.Free(x.key)
    modifies q`messages, q`b, x`pri
    ensures q.messages == old(q.messages) && q.pq.Valid() && x !in q.pq.members
  {
    FreeIsNotFiled(q.b, q.messages, x.key);
    q.StartA(x, pri);
    var z := q.FinishA(x.key);
  }

  /** The other two, the acknowledgement's first. */
  method RemoveAndAdd(q: RetryQueue, x: Item) returns (y: Item?, ok: bool)
    requires q.pq.Valid() && x !in q.pq.members && (x.index == 0 || x.index == -1)
    modifies q.pq, q.pq.a, q.pq.members`index, x`index
    ensures ok <==> old(x.index) == -1 || old(q.pq.members) != {}
    ensures y != null <==> old(x.index) == 0 && old(q.pq.members) != {}
    ensures y != null ==> y in old(q.pq.members) && y == old(q.pq.items)[0]
    ensures ok ==> q.pq.members == old(q.pq.members) - (if y == null then {} else {y}) + {x}
  {
    if q.pq.members != {} {
      var any :| any in q.pq.members;
      assert q.pq.n > 0;
    }
    assert q.pq.n > 0 ==> q.pq.items[0] in q.pq.members;
    y, ok := q.RemoveFromInFlightPQ(x);
    if ok {
      q.AddToInFlightPQ(x);
    }
  }

  /**
   An acknowledgement that comes between the two sections of a start, on any queue. In the end the new item is on the
   heap and not filed. If it is new, its index is still 0: the first other delivery leaves the heap for it and will
   never time out, and without any other delivery the removal crashes. If it is a copy of a redelivered one, its
   index is -1 and nothing is removed.
   */
  method AckInsideStart(q: RetryQueue, x: Item, pri: int) returns (y: Item?, ok: bool)
    requires q.Valid() && x !in q.b.started && q.b.Free(x.key) && (x.index == 0 || x.index == -1)
    modifies q, q.pq, q.pq.a, q.pq.members`index, x
    ensures q.messages == old(q.messages)
    ensures ok <==> old(x.index) == -1 || old(q.pq.members) != {}
    ensures y != null <==> old(x.index) == 0 && old(q.pq.members) != {}
    ensures y != null ==> y in old(q.pq.members) && y == old(q.pq.items)[0]
    ensures ok ==> q.pq.members == old(q.pq.members) - (if y == null then {} else {y}) + {x}
  {
    StartAndAck(q, x, pri);
    y, ok := RemoveAndAdd(q, x);
  }
}
