/** Every interleaving of the lock sections of the retry queue. */
module RetryRuns {
  import opened InFlightHeap
  import opened RetryQueues

  /** Two sections of every call, by whichever goroutine; `n` is the number of a delivery in the order of the starts. */
  datatype Section =
    | BeginStart(key: string, pri: int, index: int) | EndStart(n: nat)
    | BeginAck(key: string) | EndAck(n: nat)
    | BeginTimeout(t: int) | EndTimeout(n: nat)

  /** The books, the map, the deliveries in the order of their starts, and when each is due. */
  datatype State = State(b: Books, messages: map<string, Item>, items: seq<Item>, pri: map<Item, int>)

  ghost function Start(): State {
    State(EmptyBooks(), map[], [], map[])
  }

  ghost predicate EarliestDue(s: State, t: int, x: Item) {
    && x in s.b.queued && x in s.pri && s.pri[x] <= t
    && forall y {:trigger y in s.b.queued} :: y in s.b.queued ==> y in s.pri && s.pri[x] <= s.pri[y]
  }

  ghost predicate NoneDue(s: State, t: int) {
    forall y {:trigger y in s.b.queued} :: y in s.b.queued ==> y in s.pri && s.pri[y] > t
  }

  /** A new delivery is filed. */
  ghost predicate Starts(s: State, key: string, pri: int, s': State) {
    && |s'.items| == |s.items| + 1
    && var x := s'.items[|s.items|];
    && x.key == key && x !in s.b.started
    && s' == State(s.b.StartA(x), s.messages[key := x], s.items + [x], s.pri[x := pri])
  }

  /** What the first section of a timeout makes of a state: the earliest delivery leaves the heap if it is due. */
  ghost predicate Shifts(s: State, t: int, s': State) {
    || (NoneDue(s, t) && s' == s)
    || exists x :: x in s.b.queued && EarliestDue(s, t, x) && s' == s.(b := s.b.TimeA(x))
  }

  /**
   What one section makes of a state. One that cannot run now changes nothing: a key is started only while it is free
   and acknowledged only when its start has returned, and a second section runs behind its first one.
   */
  ghost predicate Stepped(s: State, section: Section, s': State) {
    match section
    case BeginStart(key, pri, _) => if s.b.Free(key) then Starts(s, key, pri, s') else s' == s
    case EndStart(n) =>
      s' == if n < |s.items| && s.items[n] in s.b.starting then s.(b := s.b.StartB(s.items[n])) else s
    case BeginAck(key) =>
      s' == if key in s.messages && s.messages[key] !in s.b.starting
            then s.(b := s.b.FinishA(s.messages[key]), messages := s.messages - {key}) else s
    case EndAck(n) =>
      s' == if n < |s.items| && s.items[n] in s.b.finishing then s.(b := s.b.FinishB(s.items[n])) else s
    case BeginTimeout(t) => Shifts(s, t, s')
    case EndTimeout(n) =>
      s' == if n < |s.items| && s.items[n] in s.b.timing then TimesOut(s, s.items[n]) else s
  }

  /** The second section of a timeout takes whatever is filed under the key off the map. */
  ghost function TimesOut(s: State, x: Item): State {
    s.(b := s.b.TimeB(x), messages := s.messages - {x.key})
  }

  ghost predicate History(hist: seq<State>, sections: seq<Section>) {
    && |hist| == |sections| + 1 && hist[0] == Start()
    && forall i {:trigger sections[i]} :: 0 <= i < |sections| ==> Stepped(hist[i], sections[i], hist[i + 1])
  }

  // ---------- what every run keeps ----------

  lemma StepKeeps(s: State, section: Section, s': State)
    requires InOrder(s.b, s.messages) && Stepped(s, section, s')
    ensures InOrder(s'.b, s'.messages)
  {
    Opened(s.b, s.messages);
    match section {
      case BeginStart(key, _, _) =>
        if s.b.Free(key) {
          StartAKeeps(s.b, s.messages, s'.items[|s.items|]);
        }
      case EndStart(n) =>
        if n < |s.items| && s.items[n] in s.b.starting {
          StartBKeeps(s.b, s.messages, s.items[n]);
        }
      case BeginAck(key) =>
        if key in s.messages && s.messages[key] !in s.b.starting {
          FiledUnder(s.b, s.messages, key);
          FinishAAgrees(s.b, s.messages, s.messages[key]);
        }
      case EndAck(n) =>
        if n < |s.items| && s.items[n] in s.b.finishing {
          FinishBKeeps(s.b, s.messages, s.items[n]);
        }
      case BeginTimeout(t) =>
        if s' != s {
          var x :| x in s.b.queued && s' == s.(b := s.b.TimeA(x));
          TimeAKeeps(s.b, s.messages, x);
        }
      case EndTimeout(n) =>
        if n < |s.items| && s.items[n] in s.b.timing {
          var x := s.items[n];
          TimeBKeeps(s.b, s.messages, x);
          assert x.key !in s.messages ==> s.messages - {x.key} == s.messages;
        }
    }
  }

  lemma Opened(b: Books, messages: map<string, Item>)
    requires InOrder(b, messages)
    ensures b.Consistent(messages)
  {
    assert b.Agree();
  }

  /** At every moment of every run the books are consistent. */
  lemma {:induction false} HistoryInOrder(hist: seq<State>, sections: seq<Section>, i: nat)
    requires History(hist, sections) && i < |hist|
    ensures InOrder(hist[i].b, hist[i].messages)
  {
    if i == 0 {
      EmptyInOrder();
    } else {
      HistoryInOrder(hist, sections, i - 1);
      StepKeeps(hist[i - 1], sections[i - 1], hist[i]);
    }
  }

  lemma StepGrows(s: State, section: Section, s': State)
    requires Stepped(s, section, s')
    ensures s.b.started <= s'.b.started && s.b.acked <= s'.b.acked && s.b.timedOut <= s'.b.timedOut
  {
  }

  /** What has been started, acknowledged or timed out stays so. */
  lemma {:induction false} HistoryGrows(hist: seq<State>, sections: seq<Section>, i: nat, j: nat)
    requires History(hist, sections) && i <= j < |hist|
    ensures hist[i].b.started <= hist[j].b.started
    ensures hist[i].b.acked <= hist[j].b.acked && hist[i].b.timedOut <= hist[j].b.timedOut
    decreases j - i
  {
    if i < j {
      HistoryGrows(hist, sections, i, j - 1);
      StepGrows(hist[j - 1], sections[j - 1], hist[j]);
    }
  }

  /**
   Every started delivery is at every moment still filed, or has been acknowledged, or has timed out, exactly one of
   these; and one that was acknowledged at any moment of the run does not time out at any other.
   */
  lemma ConsumedOnce(hist: seq<State>, sections: seq<Section>, i: nat, j: nat)
    requires History(hist, sections) && i < |hist| && j < |hist|
    ensures var b := hist[i].b;
            && b.started == b.filed + b.acked + b.timedOut
            && b.filed !! b.acked && b.filed !! b.timedOut && b.acked !! b.timedOut
    ensures hist[i].b.acked !! hist[j].b.timedOut
  {
    HistoryInOrder(hist, sections, i);
    Opened(hist[i].b, hist[i].messages);
    var last := if i < j then j else i;
    HistoryInOrder(hist, sections, last);
    Opened(hist[last].b, hist[last].messages);
    HistoryGrows(hist, sections, i, last);
    HistoryGrows(hist, sections, j, last);
  }

  // ---------- the sections of the queue make such a run ----------

  /** The calls that are between their two sections, and all deliveries so far. */
  datatype Calls = Calls(items: seq<Item>, starting: set<Item>, finishing: set<Item>, timing: set<Item>)

  ghost predicate At(q: RetryQueue, c: Calls, s: State)
    reads q, q.pq, q.pq.a, q.pq.members, q.b.finishing, q.b.timing, s.pri.Keys
  {
    && q.Valid() && s.b == q.b && s.messages == q.messages && s.items == c.items
    && c.starting == q.b.starting && c.finishing == q.b.finishing && c.timing == q.b.timing
    && s.pri.Keys == q.b.started && q.b.queued <= q.b.started && q.b.starting <= q.b.started
    && forall x {:trigger x.pri} {:trigger s.pri[x]} :: x in s.pri ==> x.pri == s.pri[x]
  }

  /** Everything but new items stays as it was. */
  twostate predicate OnlyNew(q: RetryQueue)
    reads q, q.pq
  {
    && (q.pq.a == old(q.pq.a) || fresh(q.pq.a))
    && (forall x {:trigger x in q.b.started} :: x in q.b.started ==> x in old(q.b.started) || fresh(x))
  }

  /** The slots of the heap, and the indices of the items that an acknowledgement will take off it. */
  datatype Slots = Slots(heap: seq<Item>, index: map<Item, int>)

  /** Each such index is the item's own slot, or -1 when the item is not on the heap. */
  ghost predicate OwnSlots(b: Books, h: Slots) {
    forall x {:trigger x in b.finishing} :: x in b.finishing ==>
      && x in h.index
      && if x in b.queued then 0 <= h.index[x] < |h.heap| && h.heap[h.index[x]] == x else h.index[x] == -1
  }

  ghost function SlotsNow(q: RetryQueue): Slots
    reads q, q.pq, q.b.finishing
  {
    Slots(q.pq.items, map x | x in q.b.finishing :: x.index)
  }

  lemma OwnSlotsNow(q: RetryQueue)
    requires q.Valid()
    ensures OwnSlots(q.b, SlotsNow(q))
  {
    forall x | x in q.b.finishing
      ensures if x in q.b.queued then 0 <= x.index < |q.pq.items| && q.pq.items[x.index] == x else x.index == -1
    {
      q.FinishesOwnSlot(x);
    }
  }

  predicate OnHeap(q: RetryQueue, key: string)
    reads q, q.pq, q.pq.a
  {
    exists i {:trigger q.pq.a[i]} :: 0 <= i < q.pq.n && i < q.pq.a.Length && q.pq.a[i] != null && q.pq.a[i].key == key
  }

  lemma FreeIs(q: RetryQueue, c: Calls, s: State, key: string)
    requires At(q, c, s)
    ensures q.b.Free(key)
            <==> && key !in q.messages && !OnHeap(q, key)
                 && forall x {:trigger x in c.timing} :: x in c.timing ==> x.key != key
  {
    Opened(q.b, q.messages);
    assert forall k {:trigger k in q.messages} :: k in q.messages ==>
      q.messages[k] in q.b.Keyed() && q.messages[k].key == k;
    assert forall x {:trigger x in q.b.filed} :: x in q.b.filed ==> x.key in q.messages;
    forall i {:trigger q.pq.a[i]} | 0 <= i < q.pq.n
      ensures q.pq.a[i] != null && q.pq.a[i] in q.b.queued
    {
      assert q.pq.items[i] in q.pq.members;
    }
    forall x | x in q.b.queued && x.key == key
      ensures OnHeap(q, key)
    {
      assert q.pq.items[x.index] == x && q.pq.a[x.index] == x;
    }
    if OnHeap(q, key) {
      var i :| 0 <= i < q.pq.n && i < q.pq.a.Length && q.pq.a[i] != null && q.pq.a[i].key == key;
      assert q.pq.a[i] in q.b.Keyed();
    }
    assert forall x {:trigger x in c.timing} :: x in c.timing ==> x in q.b.Keyed();
  }

  method RunBeginStart(q: RetryQueue, c: Calls, ghost s: State, key: string, pri: int, index: int)
    returns (c': Calls, ghost s': State)
    requires At(q, c, s) && s.b.Free(key)
    modifies q
    ensures At(q, c', s') && OnlyNew(q) && Starts(s, key, pri, s')
  {
    FreeIsNotFiled(q.b, q.messages, key);
    var x := new Item(key, index);
    assert x !in q.b.started;
    q.StartA(x, pri);
    c' := c.(items := c.items + [x], starting := c.starting + {x});
    s' := State(s.b.StartA(x), s.messages[key := x], s.items + [x], s.pri[x := pri]);
  }

  method RunEndStart(q: RetryQueue, c: Calls, ghost s: State, x: Item) returns (c': Calls, ghost s': State)
    requires At(q, c, s) && x in c.starting
    modifies q, q.pq, q.pq.a, q.pq.members`index, x`index
    ensures At(q, c', s') && OnlyNew(q) && s' == s.(b := s.b.StartB(x)) && c'.items == c.items
  {
    q.StartB(x);
    c', s' := c.(starting := c.starting - {x}), s.(b := s.b.StartB(x));
  }

  method RunBeginAck(q: RetryQueue, c: Calls, ghost s: State, key: string) returns (c': Calls, ghost s': State)
    requires At(q, c, s) && key in q.messages && q.messages[key] !in c.starting
    modifies q
    ensures At(q, c', s') && OnlyNew(q) && c'.items == c.items
    ensures s' == s.(b := s.b.FinishA(s.messages[key]), messages := s.messages - {key})
  {
    var x := q.FinishA(key);
    c' := c.(finishing := c.finishing + {x});
    s' := s.(b := s.b.FinishA(x), messages := s.messages - {key});
  }

  method RunEndAck(q: RetryQueue, c: Calls, ghost s: State, x: Item) returns (c': Calls, ghost s': State)
    requires At(q, c, s) && x in c.finishing
    modifies q, q.pq, q.pq.a, q.pq.members`index
    ensures At(q, c', s') && OnlyNew(q) && s' == s.(b := s.b.FinishB(x)) && c'.items == c.items
  {
    q.FinishB(x);
    c', s' := c.(finishing := c.finishing - {x}), s.(b := s.b.FinishB(x));
  }

  method RunBeginTimeout(q: RetryQueue, c: Calls, ghost s: State, t: int) returns (c': Calls, ghost s': State)
    requires At(q, c, s)
    modifies q, q.pq, q.pq.a, q.pq.members`index
    ensures At(q, c', s') && OnlyNew(q) && Shifts(s, t, s') && c'.items == c.items
  {
    assert forall y {:trigger y in s.b.queued} :: y in s.b.queued ==> y in s.pri && s.pri[y] == y.pri;
    var x := q.TimeA(t);
    c', s' := c, s;
    if x != null {
      assert forall y {:trigger y in s.b.queued} :: y in s.b.queued ==> y == x || y in q.b.queued;
      assert EarliestDue(s, t, x);
      c', s' := c.(timing := c.timing + {x}), s.(b := s.b.TimeA(x));
    }
  }

  method RunEndTimeout(q: RetryQueue, c: Calls, ghost s: State, x: Item) returns (c': Calls, ghost s': State)
    requires At(q, c, s) && x in c.timing
    modifies q
    ensures At(q, c', s') && OnlyNew(q) && s' == TimesOut(s, x) && c'.items == c.items
  {
    TimesOutIs(q, c, s, x);
    var ok := q.TimeB(x);
    c', s' := c.(timing := c.timing - {x}), TimesOut(s, x);
  }

  lemma TimesOutIs(q: RetryQueue, c: Calls, s: State, x: Item)
    requires At(q, c, s) && x in c.timing
    ensures TimesOut(s, x).messages == if x in s.b.filed then s.messages - {x.key} else s.messages
  {
    Opened(s.b, s.messages);
    TimeBKeeps(s.b, s.messages, x);
    assert x.key !in s.messages ==> s.messages - {x.key} == s.messages;
  }

  method Take(q: RetryQueue, c: Calls, ghost s: State, section: Section) returns (c': Calls, ghost s': State)
    requires At(q, c, s)
    modifies q, q.pq, q.pq.a, q.pq.members`index, c.starting`index
    ensures At(q, c', s') && OnlyNew(q) && Stepped(s, section, s')
  {
    c', s' := c, s;
    match section {
      case BeginStart(key, pri, index) =>
        FreeIs(q, c, s, key);
        if key !in q.messages && !OnHeap(q, key) && forall x :: x in c.timing ==> x.key != key {
          c', s' := RunBeginStart(q, c, s, key, pri, index);
        }
      case EndStart(n) =>
        if n < |c.items| && c.items[n] in c.starting {
          c', s' := RunEndStart(q, c, s, c.items[n]);
        }
      case BeginAck(key) =>
        if key in q.messages && q.messages[key] !in c.starting {
          c', s' := RunBeginAck(q, c, s, key);
        }
      case EndAck(n) =>
        if n < |c.items| && c.items[n] in c.finishing {
          c', s' := RunEndAck(q, c, s, c.items[n]);
        }
      case BeginTimeout(t) => c', s' := RunBeginTimeout(q, c, s, t);
      case EndTimeout(n) =>
        if n < |c.items| && c.items[n] in c.timing {
          c', s' := RunEndTimeout(q, c, s, c.items[n]);
        }
    }
  }

  /**
   Any interleaving of the sections of any number of calls is such a run, with these states; and whenever an item is
   about to be taken off the heap for an acknowledgement, its index is its own slot, or -1 if it is not there.
   */
  method Interleave(sections: seq<Section>) returns (q: RetryQueue, ghost hist: seq<State>, ghost slots: seq<Slots>)
    ensures History(hist, sections) && |slots| == |hist|
    ensures forall i :: 0 <= i < |hist| ==> OwnSlots(hist[i].b, slots[i])
    ensures q.Valid() && hist[|sections|].b == q.b && hist[|sections|].messages == q.messages
    ensures slots[|sections|] == SlotsNow(q)
  {
    q := new RetryQueue();
    var c, i := Calls([], {}, {}, {}), 0;
    ghost var s := Start();
    hist := [s];
    slots := [SlotsNow(q)];
    while i < |sections|
      invariant i <= |sections| && At(q, c, s) && History(hist, sections[..i]) && hist[i] == s
      invariant |slots| == |hist| && slots[i] == SlotsNow(q)
      invariant forall j :: 0 <= j < |slots| ==> OwnSlots(hist[j].b, slots[j])
      invariant fresh(q) && fresh(q.pq) && fresh(q.pq.a)
      invariant forall x {:trigger x in q.b.started} :: x in q.b.started ==> fresh(x)
      decreases |sections| - i
    {
      ghost var before := s;
      c, s := Take(q, c, s, sections[i]);
      HistoryMore(hist, sections, i, s);
      OwnSlotsNow(q);
      hist, slots := hist + [s], slots + [SlotsNow(q)];
      i := i + 1;
    }
    assert sections[..i] == sections;
  }

  lemma HistoryMore(hist: seq<State>, sections: seq<Section>, i: nat, s: State)
    requires i < |sections| && History(hist, sections[..i]) && Stepped(hist[i], sections[i], s)
    ensures History(hist + [s], sections[..i + 1])
  {
    var more, part := hist + [s], sections[..i + 1];
    forall j {:trigger part[j]} | 0 <= j < |part|
      ensures Stepped(more[j], part[j], more[j + 1])
    {
      if j < i {
        assert sections[..i][j] == part[j] && hist[j] == more[j];
      }
    }
  }
}
