/** A lock per key, with idle locks deleted while others are in use. */
module KeyLocks {
  /** `innerLock`: a mutex and the number of its waiters and its holder. */
  class InnerLock {
    var count: int
    var locked: bool
    ghost const key: string

    constructor (ghost key: string)
      ensures count == 0 && !locked && this.key == key
    {
      count, locked, this.key := 0, false, key;
    }
  }

  /**
   Where a goroutine is, with its local variables: inside a section under the shared lock, behind its lookup (`Found`,
   `Missed`, `Leaving`), between sections (`Looking`, `Waiting`, `Releasing`), or between `Lock` returning and
   `Unlock` being called (`Holding`). In `Leaving` and `Releasing`, `found` is what `Unlock` looked up and `lock` the
   lock its caller holds.
   */
  datatype Phase =
    | Found(key: string, lock: InnerLock) | Missed(key: string) | Looking(key: string)
    | Waiting(key: string, lock: InnerLock) | Holding(key: string, lock: InnerLock)
    | Leaving(key: string, found: InnerLock, lock: InnerLock)
    | Releasing(key: string, found: InnerLock, lock: InnerLock)
  {
    /** Inside a section under the shared lock. */
    predicate Reading() {
      Found? || Missed? || Leaving?
    }

    /** Counted by its lock. */
    predicate Counted() {
      Waiting? || Holding? || Leaving?
    }

    /** Has the mutex of its lock. */
    predicate Owning() {
      Holding? || Leaving? || Releasing?
    }
  }

  type Locks = map<string, InnerLock>
  type Threads = map<nat, Phase>

  /** Every lock ever made, the threads each counts, and the thread that has its mutex. */
  datatype Books = Books(all: set<InnerLock>, refs: map<InnerLock, set<nat>>, holder: map<InnerLock, set<nat>>) {
    /** What a thread in this phase may rely on. */
    ghost predicate Placed(locks: Locks, t: nat, p: Phase) {
      && (p.Found? || p.Counted() ==> p.key in locks && locks[p.key] == p.lock && p.lock in all)
      && (p.Counted() ==> p.lock in refs && t in refs[p.lock])
      && (p.Owning() ==> p.lock in all && p.lock in holder && holder[p.lock] == {t})
      && (p.Leaving? || p.Releasing? ==> p.found == p.lock)
    }

    /** Exactly its waiters and its holder up to `Unlock` are counted, and a mutex has one owner at most. */
    ghost predicate Sound(threads: Threads, l: InnerLock) {
      && l in refs && l in holder
      && (forall t {:trigger t in refs[l]} :: t in refs[l] ==>
            t in threads && threads[t].Counted() && threads[t].lock == l)
      && (forall t {:trigger t in holder[l]} :: t in holder[l] ==>
            holder[l] == {t} && t in threads && threads[t].Owning() && threads[t].lock == l)
    }

    ghost predicate Consistent(locks: Locks, threads: Threads) {
      && (forall k {:trigger k in locks} {:trigger locks[k]} :: k in locks ==> locks[k] in all && locks[k].key == k)
      && (forall l {:trigger l in all} :: l in all ==> Sound(threads, l))
      && (forall t {:trigger t in threads} {:trigger threads[t]} :: t in threads ==> Placed(locks, t, threads[t]))
    }

    ghost function Counting(l: InnerLock, t: nat): Books {
      this.(refs := refs[l := (if l in refs then refs[l] else {}) + {t}])
    }

    ghost function Discounting(l: InnerLock, t: nat): Books {
      this.(refs := refs[l := (if l in refs then refs[l] else {}) - {t}])
    }

    ghost function Making(l: InnerLock): Books {
      this.(all := all + {l}, refs := refs[l := {}], holder := holder[l := {}])
    }

    ghost function Giving(l: InnerLock, owner: set<nat>): Books {
      this.(holder := holder[l := owner])
    }
  }

  /** Consistent; stated so that who only passes this on need not look into it. */
  ghost predicate InOrder(b: Books, locks: Locks, threads: Threads) {
    forall c: Books {:trigger c.Consistent(locks, threads)} :: c == b ==> c.Consistent(locks, threads)
  }

  // ---------- every step keeps the books consistent ----------

  /** Steps that only move a thread. */
  lemma Moves(b: Books, locks: Locks, threads: Threads, t: nat, p: Phase)
    requires b.Consistent(locks, threads) && b.Placed(locks, t, p)
    requires t in threads && threads[t].Counted() ==> p.Counted() && p.lock == threads[t].lock
    requires t in threads && threads[t].Owning() ==> p.Owning() && p.lock == threads[t].lock
    ensures b.Consistent(locks, threads[t := p])
  {
  }

  /** A thread that is counted nowhere is counted by a lock of the map, and then waits for it. */
  lemma Counts(b: Books, locks: Locks, threads: Threads, t: nat, key: string, l: InnerLock)
    requires b.Consistent(locks, threads) && key in locks && locks[key] == l
    requires t in threads ==> !threads[t].Counted() && !threads[t].Owning()
    ensures l in b.refs && t !in b.refs[l]
    ensures b.Counting(l, t).Consistent(locks, threads[t := Waiting(key, l)])
  {
    assert l in b.all && b.Sound(threads, l);
  }

  lemma OneMore(s: set<nat>, t: nat)
    requires t !in s
    ensures |s + {t}| == |s| + 1
  {
  }

  /** A thread that has left is counted no more. */
  lemma Discounts(b: Books, locks: Locks, threads: Threads, t: nat)
    requires b.Consistent(locks, threads) && t in threads && threads[t].Leaving?
    ensures var p := threads[t];
            && p.found == p.lock && p.lock in b.refs && t in b.refs[p.lock]
            && b.Discounting(p.lock, t).Consistent(locks, threads[t := Releasing(p.key, p.found, p.lock)])
  {
    assert b.Placed(locks, t, threads[t]);
  }

  /** A new lock goes into the map under a key that has none. */
  lemma Makes(b: Books, locks: Locks, threads: Threads, l: InnerLock)
    requires b.Consistent(locks, threads) && l !in b.all && l.key !in locks
    ensures b.Making(l).Consistent(locks[l.key := l], threads)
  {
  }

  /** A free mutex is given to a waiter. */
  lemma Gives(b: Books, locks: Locks, threads: Threads, t: nat)
    requires b.Consistent(locks, threads) && t in threads && threads[t].Waiting?
    requires threads[t].lock in b.holder && b.holder[threads[t].lock] == {}
    ensures var p := threads[t];
            b.Giving(p.lock, {t}).Consistent(locks, threads[t := Holding(p.key, p.lock)])
  {
    assert b.Placed(locks, t, threads[t]);
  }

  /** The releasing thread gives its own mutex back. */
  lemma Releases(b: Books, locks: Locks, threads: Threads, t: nat)
    requires b.Consistent(locks, threads) && t in threads && threads[t].Releasing?
    ensures var p := threads[t];
            && p.found == p.lock && p.lock in b.all && p.lock in b.holder && b.holder[p.lock] == {t}
            && b.Giving(p.lock, {}).Consistent(locks, threads - {t})
  {
    assert b.Placed(locks, t, threads[t]);
  }

  /** Locks nobody is counted by, and nobody has just looked up, can be taken off the map. */
  lemma Cleans(b: Books, locks: Locks, threads: Threads, rest: Locks)
    requires b.Consistent(locks, threads) && rest.Keys <= locks.Keys
    requires forall k {:trigger k in rest} {:trigger rest[k]} :: k in locks ==>
               if k in rest then rest[k] == locks[k] else locks[k] in b.refs && b.refs[locks[k]] == {}
    requires forall t {:trigger threads[t]} :: t in threads ==> !threads[t].Reading()
    ensures b.Consistent(rest, threads)
  {
    forall t | t in threads
      ensures b.Placed(rest, t, threads[t])
    {
      assert b.Placed(locks, t, threads[t]);
    }
  }

  // ---------- runs ----------

  /** The locks under their keys, where the goroutines are, and the books. */
  datatype State = State(locks: Locks, threads: Threads, b: Books) {
    ghost predicate InOrder() {
      b.Consistent(locks, threads)
    }

    /** No goroutine is inside a section under the shared lock. */
    ghost predicate Unread() {
      forall t {:trigger threads[t]} :: t in threads ==> !threads[t].Reading()
    }
  }

  ghost function Start(): State {
    State(map[], map[], Books({}, map[], map[]))
  }

  /** A goroutine calls `Lock` or `Unlock`, or goes on with such a call; or somebody calls `Clean`. */
  datatype Step = CallLock(t: nat, key: string) | CallUnlock(t: nat) | GoOn(t: nat) | CallClean

  /** The write section of `Lock`: the lock is made if it is still missing, and counts its new waiter. */
  ghost predicate Creates(s: State, t: nat, s': State)
    requires t in s.threads && s.threads[t].Looking?
  {
    var key := s.threads[t].key;
    && key in s'.locks && var l := s'.locks[key];
    && (key !in s.locks ==> l !in s.b.all && l.key == key)
    && s'.locks == s.locks[key := l] && (key in s.locks ==> l == s.locks[key])
    && s'.threads == s.threads[t := Waiting(key, l)]
    && s'.b == (if key in s.locks then s.b else s.b.Making(l)).Counting(l, t)
  }

  /** A goroutine goes on with its call; it stays where it is exactly when it has to wait or has no call under way. */
  ghost predicate GoesOn(s: State, t: nat, s': State)
    requires t in s.threads
  {
    match s.threads[t]
    case Found(key, l) => s' == State(s.locks, s.threads[t := Waiting(key, l)], s.b.Counting(l, t))
    case Missed(key) => s' == s.(threads := s.threads[t := Looking(key)])
    case Looking(_) => if s.Unread() then Creates(s, t, s') else s' == s
    case Waiting(key, l) =>
      if l in s.b.holder && s.b.holder[l] == {}
      then s' == State(s.locks, s.threads[t := Holding(key, l)], s.b.Giving(l, {t})) else s' == s
    case Holding(_, _) => s' == s
    case Leaving(key, found, l) =>
      s' == State(s.locks, s.threads[t := Releasing(key, found, l)], s.b.Discounting(found, t))
    case Releasing(_, found, _) => s' == State(s.locks, s.threads - {t}, s.b.Giving(found, {}))
  }

  /** `Unlock` looks its key up; without a lock there it would return and leave the mutex locked. */
  ghost function Unlocking(s: State, t: nat): State
    requires t in s.threads && s.threads[t].Holding?
  {
    var p := s.threads[t];
    s.(threads := if p.key in s.locks then s.threads[t := Leaving(p.key, s.locks[p.key], p.lock)] else s.threads - {t})
  }

  /** Exactly the locks nobody is counted by go. */
  ghost predicate CleansIdle(s: State, s': State) {
    && s'.threads == s.threads && s'.b == s.b && s'.locks.Keys <= s.locks.Keys
    && forall k {:trigger k in s'.locks} {:trigger s'.locks[k]} :: k in s.locks ==>
         && s.locks[k] in s.b.refs && (k in s'.locks <==> s.b.refs[s.locks[k]] != {})
         && (k in s'.locks ==> s'.locks[k] == s.locks[k])
  }

  /** What one step makes of a state; a step that cannot be taken now changes nothing. */
  ghost predicate Stepped(s: State, step: Step, s': State) {
    match step
    case CallLock(t, key) =>
      if t in s.threads then s' == s
      else s' == s.(threads := s.threads[t := if key in s.locks then Found(key, s.locks[key]) else Missed(key)])
    case CallUnlock(t) => s' == if t in s.threads && s.threads[t].Holding? then Unlocking(s, t) else s
    case GoOn(t) => if t in s.threads then GoesOn(s, t, s') else s' == s
    case CallClean => if s.Unread() then CleansIdle(s, s') else s' == s
  }

  ghost predicate History(hist: seq<State>, steps: seq<Step>) {
    && |hist| == |steps| + 1 && hist[0] == Start()
    && forall i {:trigger steps[i]} :: 0 <= i < |steps| ==> Stepped(hist[i], steps[i], hist[i + 1])
  }

  lemma GoesOnKeeps(s: State, t: nat, s': State)
    requires s.InOrder() && t in s.threads && GoesOn(s, t, s')
    ensures s'.InOrder()
  {
    assert s.b.Placed(s.locks, t, s.threads[t]);
    match s.threads[t] {
      case Found(key, l) => Counts(s.b, s.locks, s.threads, t, key, l);
      case Missed(key) => Moves(s.b, s.locks, s.threads, t, Looking(key));
      case Looking(key) =>
        if s.Unread() {
          CreatesKeeps(s, t, s');
        }
      case Waiting(_, l) =>
        if l in s.b.holder && s.b.holder[l] == {} {
          Gives(s.b, s.locks, s.threads, t);
        }
      case Holding(_, _) =>
      case Leaving(_, _, _) => Discounts(s.b, s.locks, s.threads, t);
      case Releasing(_, _, _) => Releases(s.b, s.locks, s.threads, t);
    }
  }

  lemma CreatesKeeps(s: State, t: nat, s': State)
    requires s.InOrder() && t in s.threads && s.threads[t].Looking? && Creates(s, t, s')
    ensures s'.InOrder()
  {
    var key := s.threads[t].key;
    var l := s'.locks[key];
    if key in s.locks {
      assert s'.locks == s.locks;
      Counts(s.b, s.locks, s.threads, t, key, l);
    } else {
      Makes(s.b, s.locks, s.threads, l);
      Counts(s.b.Making(l), s'.locks, s.threads, t, key, l);
    }
  }

  lemma StepKeeps(s: State, step: Step, s': State)
    requires s.InOrder() && Stepped(s, step, s')
    ensures s'.InOrder()
  {
    match step {
      case CallLock(t, key) =>
        if t !in s.threads {
          Moves(s.b, s.locks, s.threads, t, s'.threads[t]);
        }
      case CallUnlock(t) =>
        if t in s.threads && s.threads[t].Holding? {
          assert s.b.Placed(s.locks, t, s.threads[t]);
          Moves(s.b, s.locks, s.threads, t, s'.threads[t]);
        }
      case GoOn(t) =>
        if t in s.threads {
          GoesOnKeeps(s, t, s');
        }
      case CallClean =>
        if s.Unread() {
          Cleans(s.b, s.locks, s.threads, s'.locks);
        }
    }
  }

  /** At every moment of every run the books are consistent. */
  lemma {:induction false} HistoryInOrder(hist: seq<State>, steps: seq<Step>, i: nat)
    requires History(hist, steps) && i < |hist|
    ensures hist[i].InOrder()
  {
    if i > 0 {
      HistoryInOrder(hist, steps, i - 1);
      StepKeeps(hist[i - 1], steps[i - 1], hist[i]);
    }
  }

  /**
   Every run of any number of goroutines, with `Clean` at any moment: at no moment are two of them between `Lock(k)`
   returning and `Unlock(k)` being called, and what `Unlock` has looked up is the lock its caller holds.
   */
  lemma RunExcludes(hist: seq<State>, steps: seq<Step>, i: nat, t: nat, u: nat)
    requires History(hist, steps) && i < |hist| && t in hist[i].threads
    ensures u in hist[i].threads && SameSection(hist[i].threads[t], hist[i].threads[u]) ==> t == u
    ensures hist[i].threads[t].Leaving? || hist[i].threads[t].Releasing? ==>
            hist[i].threads[t].found == hist[i].threads[t].lock
    ensures hist[i].threads[t].Holding? ==> hist[i].threads[t].key in hist[i].locks
  {
    HistoryInOrder(hist, steps, i);
    var s := hist[i];
    assert s.b.Placed(s.locks, t, s.threads[t]);
    if u in s.threads {
      assert s.b.Placed(s.locks, u, s.threads[u]);
    }
  }

  /** Both are between `Lock` returning and `Unlock` being called, on the same key. */
  predicate SameSection(p: Phase, q: Phase) {
    p.Holding? && q.Holding? && p.key == q.key
  }

  class KeyLock {
    var locks: Locks
    var threads: Threads
    ghost var b: Books

    /** The counts and the mutexes are as the books say. */
    ghost predicate Counted()
      reads this, b.all
    {
      forall l {:trigger l in b.all} :: l in b.all ==>
        l in b.refs && l in b.holder && l.count == |b.refs[l]| && (l.locked <==> b.holder[l] != {})
    }

    ghost predicate Valid()
      reads this, b.all
    {
      InOrder(b, locks, threads) && Counted()
    }

    constructor ()
      ensures Valid() && World() == Start() && b.all == {}
    {
      locks, threads, b := map[], map[], Books({}, map[], map[]);
      new;
      assert b.Consistent(locks, threads);
    }

    ghost function World(): State
      reads this
    {
      State(locks, threads, b)
    }

    /** No goroutine is inside a section under the shared lock: a section under the exclusive lock may run. */
    predicate NoReaders()
      reads this
    {
      forall t {:trigger threads[t]} :: t in threads ==> !threads[t].Reading()
    }

    /** At most one goroutine is between `Lock(k)` returning and `Unlock(k)` being called. */
    lemma MutualExclusion(t: nat, u: nat)
      requires Valid() && t in threads && u in threads && SameSection(threads[t], threads[u])
      ensures t == u
    {
      assert b.Consistent(locks, threads);
      assert b.Placed(locks, t, threads[t]) && b.Placed(locks, u, threads[u]);
    }

    /** A lock's count is the number of the goroutines that wait for it, or hold it and have not left it. */
    lemma CountsItsUsers(l: InnerLock, users: set<nat>)
      requires Valid() && l in b.all
      requires users == set t | t in threads && threads[t].Counted() && threads[t].lock == l
      ensures l.count == |users|
    {
      assert b.Consistent(locks, threads);
      assert b.Sound(threads, l);
      forall t
        ensures t in users <==> t in b.refs[l]
      {
        if t in users {
          assert b.Placed(locks, t, threads[t]);
        }
      }
      assert users == b.refs[l];
    }

    /** `Lock`, the read section up to the lookup. */
    method LockLookup(t: nat, key: string)
      requires Valid() && t !in threads
      modifies `threads
      ensures Valid() && threads == old(threads)[t := if key in locks then Found(key, locks[key]) else Missed(key)]
    {
      var p := if key in locks then Found(key, locks[key]) else Missed(key);
      assert b.Consistent(locks, threads);
      Moves(b, locks, threads, t, p);
      threads := threads[t := p];
    }

    /** The rest of it: a lock that was found is counted. */
    method LockAdd(t: nat)
      requires Valid() && t in threads && (threads[t].Found? || threads[t].Missed?)
      modifies `threads, `b, b.all
      ensures Valid() && b.all == old(b.all)
      ensures var p := old(threads)[t];
              && threads == old(threads)[t := if p.Found? then Waiting(p.key, p.lock) else Looking(p.key)]
              && b == if p.Found? then old(b).Counting(p.lock, t) else old(b)
    {
      assert b.Consistent(locks, threads);
      match threads[t]
      case Found(key, lock) =>
        assert b.Placed(locks, t, threads[t]);
        Add(t, key, lock);
      case Missed(key) =>
        Moves(b, locks, threads, t, Looking(key));
        threads := threads[t := Looking(key)];
    }

    /** `add`; the goroutine then waits for the lock. */
    method Add(t: nat, key: string, lock: InnerLock)
      requires Valid() && key in locks && locks[key] == lock && lock in b.all
      requires t in threads ==> !threads[t].Counted() && !threads[t].Owning()
      modifies `threads, `b, lock
      ensures Valid() && b.all == old(b.all)
      ensures threads == old(threads)[t := Waiting(key, lock)] && b == old(b).Counting(lock, t)
    {
      Counts(b, locks, threads, t, key, lock);
      OneMore(b.refs[lock], t);
      lock.count := lock.count + 1;
      b := b.Counting(lock, t);
      threads := threads[t := Waiting(key, lock)];
    }

    /** `Lock`, the write section: looks again, makes the lock if it is still missing, and counts it. */
    method LockCreate(t: nat)
      requires Valid() && t in threads && threads[t].Looking? && NoReaders()
      modifies this, b.all
      ensures Valid() && (forall l :: l in b.all ==> l in old(b.all) || fresh(l))
      ensures Creates(old(World()), t, World())
    {
      var key := threads[t].key;
      assert b.Consistent(locks, threads);
      if key !in locks {
        var l := new InnerLock(key);
        Makes(b, locks, threads, l);
        locks, b := locks[key := l], b.Making(l);
        assert b.Consistent(locks, threads);
      }
      Add(t, key, locks[key]);
    }

    /** `Lock`, at the end: the mutex of the lock is acquired. */
    method Acquire(t: nat)
      requires Valid() && t in threads && threads[t].Waiting? && !threads[t].lock.locked
      modifies `threads, `b, threads[t].lock
      ensures Valid() && b.all == old(b.all)
      ensures var p := old(threads)[t];
              threads == old(threads)[t := Holding(p.key, p.lock)] && b == old(b).Giving(p.lock, {t})
    {
      var p := threads[t];
      assert b.Consistent(locks, threads);
      assert b.Placed(locks, t, p);
      Gives(b, locks, threads, t);
      p.lock.locked := true;
      b := b.Giving(p.lock, {t});
      threads := threads[t := Holding(p.key, p.lock)];
    }

    /** `Unlock`, the read section up to the lookup: it finds the lock its caller holds. */
    method UnlockLookup(t: nat) returns (ok: bool)
      requires Valid() && t in threads && threads[t].Holding?
      modifies `threads
      ensures Valid() && ok
      ensures var p := old(threads)[t];
              p.key in locks && locks[p.key] == p.lock && threads == old(threads)[t := Leaving(p.key, p.lock, p.lock)]
    {
      var p := threads[t];
      assert b.Consistent(locks, threads);
      assert b.Placed(locks, t, p);
      ok := p.key in locks;
      if ok {
        var found := locks[p.key];
        Moves(b, locks, threads, t, Leaving(p.key, found, p.lock));
        threads := threads[t := Leaving(p.key, found, p.lock)];
      }
    }

    /** The rest of it: `done`. */
    method UnlockDone(t: nat)
      requires Valid() && t in threads && threads[t].Leaving?
      modifies `threads, `b, threads[t].found
      ensures Valid() && b.all == old(b.all)
      ensures var p := old(threads)[t];
              threads == old(threads)[t := Releasing(p.key, p.found, p.lock)] && b == old(b).Discounting(p.found, t)
    {
      var p := threads[t];
      assert b.Consistent(locks, threads);
      Discounts(b, locks, threads, t);
      assert b.Placed(locks, t, p);
      p.found.count := p.found.count - 1;
      b := b.Discounting(p.lock, t);
      threads := threads[t := Releasing(p.key, p.found, p.lock)];
    }

    /** `Unlock`, at the end: what it releases is the very mutex its caller holds. */
    method Release(t: nat)
      requires Valid() && t in threads && threads[t].Releasing?
      modifies `threads, `b, threads[t].found
      ensures Valid() && b.all == old(b.all) && threads == old(threads) - {t}
      ensures var p := old(threads)[t];
              p.found == p.lock && old(p.found.locked) && !p.found.locked && b == old(b).Giving(p.found, {})
    {
      var p := threads[t];
      assert b.Consistent(locks, threads);
      Releases(b, locks, threads, t);
      p.found.locked := false;
      b := b.Giving(p.lock, {});
      threads := threads - {t};
    }

    /** `Clean`: every idle lock goes, and only those. */
    method Clean()
      requires Valid() && NoReaders()
      modifies `locks
      ensures Valid() && locks.Keys <= old(locks).Keys
      ensures forall k :: k in old(locks) ==> (k in locks <==> old(locks)[k].count != 0)
      ensures forall k :: k in locks ==> locks[k] == old(locks)[k]
      ensures CleansIdle(old(World()), World())
    {
      var rest := locks.Keys;
      assert b.Consistent(locks, threads);
      while rest != {}
        invariant Valid() && rest <= locks.Keys <= old(locks).Keys
        invariant forall k {:trigger k in locks} :: k in locks ==>
                  locks[k] == old(locks)[k] && (k in rest || locks[k].count != 0)
        invariant forall k {:trigger k in old(locks)} :: k in old(locks) && k !in locks ==> old(locks)[k].count == 0
        decreases rest
      {
        var k :| k in rest;
        rest := rest - {k};
        assert b.Consistent(locks, threads);
        assert locks[k] in b.all;
        if locks[k].count == 0 {
          Cleans(b, locks, threads, locks - {k});
          locks := locks - {k};
        }
      }
      IdleByCount(old(locks));
    }

    /** A count is 0 exactly when nobody is counted. */
    lemma IdleByCount(ls: Locks)
      requires Counted() && forall k {:trigger k in ls} :: k in ls ==> ls[k] in b.all
      ensures forall k {:trigger ls[k]} :: k in ls ==> ls[k] in b.refs && (ls[k].count == 0 <==> b.refs[ls[k]] == {})
    {
    }
  }

  // ---------- any run of the methods ----------

  method Advance(l: KeyLock, t: nat)
    requires l.Valid() && t in l.threads
    modifies l, l.b.all
    ensures l.Valid() && forall x :: x in l.b.all ==> x in old(l.b.all) || fresh(x)
    ensures GoesOn(old(l.World()), t, l.World())
  {
    assert l.b.Consistent(l.locks, l.threads);
    assert l.b.Placed(l.locks, t, l.threads[t]);
    match l.threads[t] {
      case Found(_, _) => l.LockAdd(t);
      case Missed(_) => l.LockAdd(t);
      case Looking(_) =>
        if l.NoReaders() {
          l.LockCreate(t);
        }
      case Waiting(_, lock) =>
        if !lock.locked {
          l.Acquire(t);
        }
      case Holding(_, _) =>
      case Leaving(_, _, _) => l.UnlockDone(t);
      case Releasing(_, _, _) => l.Release(t);
    }
  }

  method Take(l: KeyLock, step: Step)
    requires l.Valid()
    modifies l, l.b.all
    ensures l.Valid() && forall x :: x in l.b.all ==> x in old(l.b.all) || fresh(x)
    ensures Stepped(old(l.World()), step, l.World())
  {
    match step {
      case CallLock(t, key) =>
        if t !in l.threads {
          l.LockLookup(t, key);
        }
      case CallUnlock(t) =>
        if t in l.threads && l.threads[t].Holding? {
          var ok := l.UnlockLookup(t);
        }
      case GoOn(t) =>
        if t in l.threads {
          Advance(l, t);
        }
      case CallClean =>
        if l.NoReaders() {
          l.Clean();
        }
    }
  }

  /** Any list of steps is a run, whose states are these. */
  method Interleave(steps: seq<Step>) returns (l: KeyLock, ghost hist: seq<State>)
    ensures History(hist, steps) && hist[|steps|] == l.World() && l.Valid()
  {
    l := new KeyLock();
    hist := [l.World()];
    var i := 0;
    while i < |steps|
      invariant i <= |steps| && l.Valid() && fresh(l) && forall x {:trigger x in l.b.all} :: x in l.b.all ==> fresh(x)
      invariant History(hist, steps[..i]) && hist[i] == l.World()
      decreases |steps| - i
    {
      Take(l, steps[i]);
      HistoryMore(hist, steps, i, l.World());
      hist := hist + [l.World()];
      i := i + 1;
    }
    assert steps[..i] == steps;
  }

  lemma HistoryMore(hist: seq<State>, steps: seq<Step>, i: nat, s: State)
    requires i < |steps| && History(hist, steps[..i]) && Stepped(hist[i], steps[i], s)
    ensures History(hist + [s], steps[..i + 1])
  {
    var more, part := hist + [s], steps[..i + 1];
    forall j {:trigger part[j]} | 0 <= j < |part|
      ensures Stepped(more[j], part[j], more[j + 1])
    {
      if j < i {
        assert steps[..i][j] == part[j] && hist[j] == more[j];
      }
    }
  }
}
