/** Priority-donating semaphores, locks and condition variables of a
    single-processor kernel (threads/synch.c).

    Each operation is modelled as one atomic transition of the objects it
    names. That matches the code where it runs with interrupts off; where it
    does not (lock_try_acquire, lock_release, the condition operations) or
    where it yields partway (lock_acquire before sema_down, cond_wait inside
    lock_release), other threads' steps in between are not modelled. A call
    that can sleep is split where the thread sleeps: `Down` returns `blocks == true` after queueing the caller, and the
    caller, once woken, repeats the test (the `while` of sema_down). The current
    thread and "called from an interrupt handler" are parameters. */
module Synch {
  import opened OrderedList

  /** Default priority of a fresh lock (PRI_DEFAULT of the thread module). */
  const PRI_DEFAULT: int := 31

  /** A `struct lock` copied by value into a thread's `neededLock`: later changes
      to the real lock are not seen through it. Only the fields the donation
      walk reads are kept. */
  datatype LockCopy = LockCopy(holder: Thread?, priority: int, isNotNull: int, isntChain: int)

  /** The fields of a kernel thread that the primitives read and write. */
  class Thread {
    /** Current priority, raised by donation. */
    var priority: int
    /** Priority the thread had before any donation. */
    var origPriority: int
    /** 1 while the thread runs on a donated priority. */
    var currentDono: int
    /** Copy of the lock the thread waits for; valid while `isNotNull == 1`. */
    var neededLock: LockCopy
    /** Locks acquired through Lock.Acquire, filed by lock priority when acquired
        (a later donation can raise a held lock's priority; lock_release re-sorts). */
    var allLocksHeld: seq<Lock>

    constructor (priority: int)
      ensures this.priority == priority && origPriority == priority && currentDono == 0
      ensures neededLock.isNotNull == 0 && allLocksHeld == []
    {
      this.priority := priority;
      origPriority := priority;
      currentDono := 0;
      neededLock := LockCopy(null, 0, 0, 0);
      allLocksHeld := [];
    }
  }

  /** Snapshot of the current priorities of `ts`: the keys of sort_priority. */
  function Priorities(ts: seq<Thread>): (m: map<Thread, int>)
    reads ts
    ensures Keyed(ts, m)
    ensures forall t :: t in ts ==> m[t] == t.priority
  {
    map t | t in ts :: t.priority
  }

  /** Snapshot of the priorities of `ls`: the keys of sort_lock_priority. */
  function LockPriorities(ls: seq<Lock>): (m: map<Lock, int>)
    reads ls
    ensures Keyed(ls, m)
    ensures forall l :: l in ls ==> m[l] == l.priority
  {
    map l | l in ls :: l.priority
  }

  /** sort_priority: a thread goes in front of every thread of strictly lower priority. */
  function SortPriority(ts: seq<Thread>): (less: (Thread, Thread) -> bool)
    reads ts
    ensures forall a, b :: a in ts && b in ts ==> (less(a, b) <==> a.priority > b.priority)
  {
    Greater(Priorities(ts))
  }

  /** sort_lock_priority: a lock goes in front of every lock of strictly lower priority. */
  function SortLockPriority(ls: seq<Lock>): (less: (Lock, Lock) -> bool)
    reads ls
    ensures forall a, b :: a in ls && b in ls ==> (less(a, b) <==> a.priority > b.priority)
  {
    Greater(LockPriorities(ls))
  }

  /** Threads in non-increasing order of current priority. */
  ghost predicate ByPriority(ts: seq<Thread>)
    reads ts
  {
    forall i, j :: 0 <= i < j < |ts| ==> ts[i].priority >= ts[j].priority
  }

  /** Locks in non-increasing order of lock priority. */
  ghost predicate ByLockPriority(ls: seq<Lock>)
    reads ls
  {
    forall i, j :: 0 <= i < j < |ls| ==> ls[i].priority >= ls[j].priority
  }

  /** Queueing a thread with sort_priority keeps a waiter list in priority order. */
  lemma InsertKeepsPriorityOrder(ts: seq<Thread>, t: Thread)
    requires ByPriority(ts)
    ensures ByPriority(InsertOrdered(ts, t, SortPriority(ts + [t])))
    ensures multiset(InsertOrdered(ts, t, SortPriority(ts + [t]))) == multiset(ts) + multiset{t}
  {
    var m := Priorities(ts + [t]);
    assert Keyed(ts, m);
    assert Descending(ts, m);
    InsertGreaterKeepsDescending(ts, t, m);
    InsertOrderedMultiset(ts, t, Greater(m));
    var r := InsertOrdered(ts, t, Greater(m));
    forall u | u in r ensures u in ts + [t] {
      assert u in multiset(r);
    }
  }

  /** Inserting a lock with sort_lock_priority keeps a held-lock list in priority order. */
  lemma InsertKeepsLockOrder(ls: seq<Lock>, l: Lock)
    requires ByLockPriority(ls)
    ensures ByLockPriority(InsertOrdered(ls, l, SortLockPriority(ls + [l])))
    ensures multiset(InsertOrdered(ls, l, SortLockPriority(ls + [l]))) == multiset(ls) + multiset{l}
  {
    var m := LockPriorities(ls + [l]);
    assert Keyed(ls, m);
    assert Descending(ls, m);
    InsertGreaterKeepsDescending(ls, l, m);
    InsertOrderedMultiset(ls, l, Greater(m));
    var r := InsertOrdered(ls, l, Greater(m));
    forall u | u in r ensures u in ls + [l] {
      assert u in multiset(r);
    }
  }

  /** Re-sorting a waiter list and taking its front picks a thread of the highest
      current priority, however priorities changed while it was queued. */
  lemma SortedFrontHasTopPriority(ts: seq<Thread>)
    requires ts != []
    ensures ByPriority(Sort(ts, SortPriority(ts)))
    ensures forall t :: t in ts ==> Sort(ts, SortPriority(ts))[0].priority >= t.priority
  {
    var m := Priorities(ts);
    SortGreaterFrontIsMax(ts, m);
    var r := Sort(ts, Greater(m));
    forall u | u in r ensures u in ts {
      assert u in multiset(r);
    }
  }

  /** Popping the front of the re-sorted waiter list takes out one waiter of
      the highest current priority and keeps all the others. */
  lemma PopFront(ts: seq<Thread>)
    requires ts != []
    ensures var s := Sort(ts, SortPriority(ts));
            && s == [s[0]] + s[1..]
            && (forall t :: t in ts ==> s[0].priority >= t.priority)
            && multiset(s[1..]) + multiset{s[0]} == multiset(ts)
  {
    var s := Sort(ts, SortPriority(ts));
    SortedFrontHasTopPriority(ts);
    assert s == [s[0]] + s[1..];
  }

  /** Re-sorting held locks puts one of the highest lock priority in front. */
  lemma SortedFrontHasTopLockPriority(ls: seq<Lock>)
    requires ls != []
    ensures ByLockPriority(Sort(ls, SortLockPriority(ls)))
    ensures forall l :: l in ls ==> Sort(ls, SortLockPriority(ls))[0].priority >= l.priority
  {
    var m := LockPriorities(ls);
    SortGreaterFrontIsMax(ls, m);
    var r := Sort(ls, Greater(m));
    forall u | u in r ensures u in ls {
      assert u in multiset(r);
    }
  }

  /** The priority of the front thread once `ts` is sorted by sort_priority:
      the highest priority in `ts`. */
  function TopPriority(ts: seq<Thread>): (p: int)
    requires ts != []
    reads ts
    ensures forall t :: t in ts ==> p >= t.priority
    ensures exists t :: t in ts && p == t.priority
  {
    TopKeyIsAttained(ts, Priorities(ts));
    TopKey(ts, Priorities(ts))
  }

  /** A counting semaphore: a non-negative value and the threads blocked on it. */
  class Semaphore {
    var value: nat
    var waiters: seq<Thread>

    /** sema_init. */
    constructor (value: nat)
      ensures this.value == value && waiters == []
    {
      this.value := value;
      waiters := [];
    }

    /** One test of sema_down's loop guard. While the value is 0 the caller is
        queued by sort_priority and sleeps (`blocks`); once the value is positive
        it is decremented by exactly one. */
    method Down(cur: Thread, inIntr: bool) returns (blocks: bool)
      requires !inIntr
      modifies this
      ensures blocks <==> old(value) == 0
      ensures blocks ==> value == 0 && waiters == InsertOrdered(old(waiters), cur, SortPriority(old(waiters) + [cur]))
      ensures !blocks ==> value == old(value) - 1 && waiters == old(waiters)
    {
      if value == 0 {
        waiters := InsertOrdered(waiters, cur, SortPriority(waiters + [cur]));
        blocks := true;
      } else {
        value := value - 1;
        blocks := false;
      }
    }

    /** sema_try_down: decrements and succeeds exactly when the value is positive. */
    method TryDown() returns (success: bool)
      modifies this`value
      ensures success <==> old(value) > 0
      ensures value == if success then old(value) - 1 else old(value)
    {
      if value > 0 {
        value := value - 1;
        success := true;
      } else {
        success := false;
      }
    }

    /** sema_up: re-sorts the waiters by their current priority, wakes the front
        one (`woken`, the thread passed to thread_unblock) and raises the value
        by one. */
    method Up() returns (woken: Thread?)
      modifies this
      ensures Upped(old(value), old(waiters), old(Priorities(waiters)), woken)
    {
      woken := null;
      var key := Priorities(waiters);
      if waiters != [] {
        var sorted := Sort(waiters, Greater(key));
        TopKeyIsAttained(waiters, key);
        assert sorted == [sorted[0]] + sorted[1..];
        woken := sorted[0];
        waiters := sorted[1..];
      }
      value := value + 1;
    }

    /** The state sema_up leaves from the value `value0`, the waiter list
        `queued` and the waiters' priorities `key` at the time of the call:
        the value is one higher; with no waiter nobody is woken, and
        otherwise the woken thread is one of `queued` of the highest priority,
        the front of `queued` re-sorted by priority, and the others stay
        queued in that order. */
    predicate Upped(value0: nat, queued: seq<Thread>, key: map<Thread, int>, woken: Thread?)
      requires Keyed(queued, key)
      reads this
    {
      && value == value0 + 1
      && (queued == [] ==> woken == null && waiters == [])
      && (queued != [] ==>
            && woken != null && woken in queued
            && [woken] + waiters == Sort(queued, Greater(key))
            && key[woken] == TopKey(queued, key)
            && multiset(waiters) + multiset{woken} == multiset(queued))
    }
  }

  /** `chain` lists the threads the donation walk visits from `h`: each one's
      copied needed lock names the next holder, and the last waits for nothing.
      A walk that comes back to a thread never ends, so no chain exists then. */
  ghost predicate IsChain(h: Thread, chain: seq<Thread>)
    reads chain
    decreases |chain|
  {
    && |chain| > 0
    && chain[0] == h
    && if h.neededLock.isNotNull == 1
       then h.neededLock.holder != null && IsChain(h.neededLock.holder, chain[1..])
       else |chain| == 1
  }

  /** The walk is determined by the threads' copied locks: one start, one chain. */
  lemma {:induction false} ChainUnique(h: Thread, c1: seq<Thread>, c2: seq<Thread>)
    requires IsChain(h, c1) && IsChain(h, c2)
    ensures c1 == c2
    decreases |c1|
  {
    if h.neededLock.isNotNull == 1 {
      ChainUnique(h.neededLock.holder, c1[1..], c2[1..]);
      assert c1 == [h] + c1[1..] && c2 == [h] + c2[1..];
    }
  }

  /** Every suffix of a chain is the chain of its first thread. */
  lemma {:induction false} ChainSuffix(h: Thread, chain: seq<Thread>, i: nat)
    requires IsChain(h, chain) && i < |chain|
    ensures IsChain(chain[i], chain[i..])
    decreases i
  {
    if i > 0 {
      ChainSuffix(h.neededLock.holder, chain[1..], i - 1);
      assert chain[1..][i - 1..] == chain[i..];
    }
  }

  /** A chain visits no thread twice: the walk terminates only on an acyclic
      wait-for chain. */
  lemma ChainAcyclic(h: Thread, chain: seq<Thread>)
    requires IsChain(h, chain)
    ensures forall i, j :: 0 <= i < j < |chain| ==> chain[i] != chain[j]
  {
    forall i, j | 0 <= i < j < |chain| ensures chain[i] != chain[j] {
      ChainSuffix(h, chain, i);
      ChainSuffix(h, chain, j);
      if chain[i] == chain[j] {
        ChainUnique(chain[i], chain[i..], chain[j..]);
      }
    }
  }

  /** From a set of threads that all wait, through their copied locks, on
      holders inside the same set, the walk has no chain: next_lock_needed
      recurses forever. */
  lemma {:induction false} CycleHasNoChain(cycle: set<Thread>, h: Thread, chain: seq<Thread>)
    requires h in cycle
    requires forall t :: t in cycle ==> t.neededLock.isNotNull == 1 && t.neededLock.holder in cycle
    ensures !IsChain(h, chain)
    decreases |chain|
  {
    if |chain| > 1 {
      CycleHasNoChain(cycle, h.neededLock.holder, chain[1..]);
    }
  }

  /** A mutual-exclusion lock with priority donation. */
  class Lock {
    var holder: Thread?
    const semaphore: Semaphore
    /** Highest priority donated through this lock. */
    var priority: int
    var isNotNull: int
    /** 0 while the lock carries a donation, 1 otherwise. */
    var isntChain: int

    /** lock_init. */
    constructor ()
      ensures holder == null && fresh(semaphore)
      ensures semaphore.value == 1 && semaphore.waiters == []
      ensures priority == PRI_DEFAULT && isNotNull == 0 && isntChain == 1
      ensures Valid()
    {
      holder := null;
      semaphore := new Semaphore(1);
      priority := PRI_DEFAULT;
      isNotNull := 0;
      isntChain := 1;
    }

    /** Mutual exclusion: the semaphore is 1 exactly while nobody holds the
        lock, and 0 while some thread does. */
    ghost predicate Valid()
      reads this, semaphore
    {
      semaphore.value == if holder == null then 1 else 0
    }

    /** lock_held_by_current_thread. A lock held by the caller is taken: its
        semaphore is 0. */
    predicate HeldByCurrentThread(cur: Thread): (held: bool)
      reads this, semaphore
      ensures held ==> holder != null
      ensures held && Valid() ==> semaphore.value == 0
    {
      holder == cur
    }

    /** lock_acquire donates when the holder's priority is below the caller's. */
    predicate Donates(cur: Thread)
      reads this, holder, cur
    {
      holder != null && holder.priority < cur.priority
    }

    /** lock_acquire up to sema_down's first test (lines 242-262), and, when the
        semaphore is free, the bookkeeping that follows it. `chain` is the
        donation walk from the holder, which must exist (an acyclic wait-for
        chain) and must not pass through the caller. */
    method Acquire(cur: Thread, inIntr: bool, ghost chain: seq<Thread>) returns (blocks: bool)
      requires !inIntr && !HeldByCurrentThread(cur) && Valid()
      requires Donates(cur) ==> IsChain(holder, chain) && cur !in chain
      requires !Donates(cur) ==> chain == []
      modifies this, semaphore, cur, chain
      // the lock: taken exactly when nobody held it
      ensures Valid()
      ensures blocks <==> old(holder) != null
      ensures holder == if blocks then old(holder) else cur
      ensures priority == if old(holder) == null then old(cur.priority)
                          else if old(Donates(cur)) && old(priority) < old(cur.priority) then old(cur.priority)
                          else old(priority)
      ensures isntChain == if old(Donates(cur)) then 0 else old(isntChain)
      ensures isNotNull == old(isNotNull)
      // its semaphore
      ensures blocks <==> old(semaphore.value) == 0
      ensures blocks ==> (semaphore.value == 0 &&
                          semaphore.waiters == InsertOrdered(old(semaphore.waiters), cur, SortPriority(old(semaphore.waiters) + [cur])))
      ensures !blocks ==> semaphore.value == old(semaphore.value) - 1 && semaphore.waiters == old(semaphore.waiters)
      // the caller
      ensures cur.priority == old(cur.priority) && cur.origPriority == old(cur.origPriority)
      ensures cur.currentDono == old(cur.currentDono)
      ensures old(Donates(cur)) ==>
                cur.neededLock == LockCopy(old(holder), old(priority), if blocks then 1 else 0, old(isntChain))
      ensures !old(Donates(cur)) ==>
                cur.neededLock == old(cur.neededLock).(isNotNull := if blocks then old(cur.neededLock.isNotNull) else 0)
      ensures cur.allLocksHeld == if blocks then old(cur.allLocksHeld)
                                  else InsertOrdered(old(cur.allLocksHeld), this, SortLockPriority(old(cur.allLocksHeld) + [this]))
      // the donation chain
      ensures forall t :: t in chain ==> t.priority == old(cur.priority) && t.currentDono == 1
      ensures forall t :: t in chain ==>
                (t.origPriority == old(t.origPriority) && t.neededLock == old(t.neededLock) && t.allLocksHeld == old(t.allLocksHeld))
    {
      if holder == null {
        priority := cur.priority;
      }
      if holder != null && holder.priority < cur.priority {
        cur.neededLock := LockCopy(holder, priority, 1, isntChain);
        isntChain := 0;
        NextLockNeeded(holder, cur, chain);
        if priority < cur.priority {
          priority := cur.priority;
        }
      }
      blocks := semaphore.Down(cur, inIntr);
      if !blocks {
        Take(cur);
      }
    }

    /** lock_acquire after the caller was woken: sema_down's test again, and the
        bookkeeping once the semaphore is free. */
    method AcquireRetry(cur: Thread, inIntr: bool) returns (blocks: bool)
      requires !inIntr && Valid()
      modifies this`holder, semaphore, cur`neededLock, cur`allLocksHeld
      ensures Valid()
      ensures blocks <==> old(holder) != null
      ensures holder == if blocks then old(holder) else cur
      ensures blocks <==> old(semaphore.value) == 0
      ensures blocks ==> (semaphore.value == 0 &&
                          semaphore.waiters == InsertOrdered(old(semaphore.waiters), cur, SortPriority(old(semaphore.waiters) + [cur])))
      ensures !blocks ==> semaphore.value == old(semaphore.value) - 1 && semaphore.waiters == old(semaphore.waiters)
      ensures cur.neededLock == if blocks then old(cur.neededLock) else old(cur.neededLock).(isNotNull := 0)
      ensures cur.allLocksHeld == if blocks then old(cur.allLocksHeld)
                                  else InsertOrdered(old(cur.allLocksHeld), this, SortLockPriority(old(cur.allLocksHeld) + [this]))
    {
      blocks := semaphore.Down(cur, inIntr);
      if !blocks {
        Take(cur);
      }
    }

    /** Lines 263-268: the caller becomes the holder, files the lock among the
        ones it holds by sort_lock_priority and stops waiting. */
    method Take(cur: Thread)
      modifies this`holder, cur`neededLock, cur`allLocksHeld
      ensures holder == cur
      ensures cur.allLocksHeld == InsertOrdered(old(cur.allLocksHeld), this, SortLockPriority(old(cur.allLocksHeld) + [this]))
      ensures cur.neededLock == old(cur.neededLock).(isNotNull := 0)
    {
      cur.allLocksHeld := InsertOrdered(cur.allLocksHeld, this, SortLockPriority(cur.allLocksHeld + [this]));
      holder := cur;
      cur.neededLock := cur.neededLock.(isNotNull := 0);
      assert LockPriorities(old(cur.allLocksHeld) + [this]) == old(LockPriorities(cur.allLocksHeld + [this]));
    }

    /** lock_try_acquire: takes the lock exactly when its semaphore is positive,
        and then only records the holder. */
    method TryAcquire(cur: Thread) returns (success: bool)
      requires !HeldByCurrentThread(cur) && Valid()
      modifies this`holder, semaphore`value
      ensures Valid()
      ensures success <==> old(holder) == null
      ensures success <==> old(semaphore.value) > 0
      ensures semaphore.value == if success then old(semaphore.value) - 1 else old(semaphore.value)
      ensures holder == if success then cur else old(holder)
    {
      success := semaphore.TryDown();
      if success {
        holder := cur;
      }
    }

    /** lock_release: the lock is given up (Leave) and its semaphore upped. */
    method Release(cur: Thread) returns (woken: Thread?)
      requires HeldByCurrentThread(cur) && Valid()
      modifies this`holder, this`isntChain, semaphore, cur`priority, cur`currentDono, cur`allLocksHeld
      ensures Valid()
      ensures LeftBy(cur, Remove(old(cur.allLocksHeld), this), old(LockPriorities(Remove(cur.allLocksHeld, this))), old(cur.priority), old(cur.currentDono), old(isntChain))
      ensures priority == old(priority) && isNotNull == old(isNotNull)
      ensures cur.origPriority == old(cur.origPriority) && cur.neededLock == old(cur.neededLock)
      ensures semaphore.Upped(old(semaphore.value), old(semaphore.waiters), Priorities(old(semaphore.waiters)), woken)
    {
      ghost var rest := Remove(cur.allLocksHeld, this);
      ghost var keys := LockPriorities(rest);
      Leave(cur);
      woken := semaphore.Up();
      assert LeftBy(cur, rest, keys, old(cur.priority), old(cur.currentDono), old(isntChain));
    }

    /** Lines 329-355 of lock_release: the holder is cleared, the lock leaves
        the releasing thread's held list, the thread falls back from a donated
        priority (RestorePriority) and the lock's donation mark is cleared. */
    method Leave(cur: Thread)
      modifies this`holder, this`isntChain, cur`priority, cur`currentDono, cur`allLocksHeld
      ensures LeftBy(cur, Remove(old(cur.allLocksHeld), this), old(LockPriorities(Remove(cur.allLocksHeld, this))), old(cur.priority), old(cur.currentDono), old(isntChain))
      ensures priority == old(priority) && isNotNull == old(isNotNull)
      ensures cur.origPriority == old(cur.origPriority) && cur.neededLock == old(cur.neededLock)
    {
      var rest := Remove(cur.allLocksHeld, this);
      ghost var keys := LockPriorities(rest);
      cur.allLocksHeld := rest;
      holder := null;
      assert LockPriorities(rest) == keys;
      RestorePriority(cur);
      isntChain := 1;
      assert LeftBy(cur, rest, keys, old(cur.priority), old(cur.currentDono), old(isntChain));
    }

    /** The state lock_release leaves the lock and the releasing thread `cur`
        in, from its held list without the lock (`rest`), the priorities of
        those locks (`keys`), its priority and
        donation mode before the call and the lock's donation mark before the
        call: the lock is free and carries no donation; a thread on its own
        priority keeps it; a thread on a donated priority that holds no other
        lock falls back to its original priority and leaves donation mode;
        otherwise its held locks are re-sorted, highest lock priority in
        front, and when the released lock carried a donation the thread takes
        that front lock's priority. */
    predicate LeftBy(cur: Thread, rest: seq<Lock>, keys: map<Lock, int>, priority0: int, dono0: int, isntChain0: int)
      requires Keyed(rest, keys)
      reads this, cur
    {
      && holder == null && isntChain == 1
      && if cur.origPriority == priority0 then
           cur.allLocksHeld == rest && cur.priority == priority0 && cur.currentDono == dono0
         else if rest == [] then
           cur.allLocksHeld == [] && cur.priority == cur.origPriority && cur.currentDono == 0
         else
           && cur.allLocksHeld == Sort(rest, Greater(keys))
           && cur.currentDono == dono0
           && cur.priority == if isntChain0 == 0 then TopKey(rest, keys) else priority0
    }

    /** Lines 333-354 of lock_release, on the held list the lock has already
        left: a thread running on a donated priority falls back to its
        original priority when it holds no lock any more; otherwise the held
        locks are re-sorted and, when this lock carried a donation, the thread
        takes the priority of the front (highest) lock. */
    method RestorePriority(cur: Thread)
      modifies cur`priority, cur`currentDono, cur`allLocksHeld
      ensures var held, keys := old(cur.allLocksHeld), old(LockPriorities(cur.allLocksHeld));
              if old(cur.origPriority == cur.priority) then
                cur.allLocksHeld == held && cur.priority == old(cur.priority) && cur.currentDono == old(cur.currentDono)
              else if held == [] then
                cur.allLocksHeld == [] && cur.priority == cur.origPriority && cur.currentDono == 0
              else
                && cur.allLocksHeld == Sort(held, Greater(keys))
                && cur.currentDono == old(cur.currentDono)
                && cur.priority == if isntChain == 0 then TopKey(held, keys) else old(cur.priority)
    {
      if cur.origPriority != cur.priority {
        if cur.allLocksHeld == [] {
          cur.priority := cur.origPriority;
          cur.currentDono := 0;
        } else {
          var keys := LockPriorities(cur.allLocksHeld);
          var sorted := Sort(cur.allLocksHeld, Greater(keys));
          TopKeyIsAttained(cur.allLocksHeld, keys);
          cur.allLocksHeld := sorted;
          if isntChain == 0 {
            var nextHighestLock := sorted[0];
            cur.priority := nextHighestLock.priority;
          }
        }
      }
    }

    /** next_lock_needed: follows the copied needed locks from `h` to the end of
        the chain, then gives every holder on the way the caller's priority and
        marks it as running on a donation. */
    static method NextLockNeeded(h: Thread, cur: Thread, ghost chain: seq<Thread>)
      requires IsChain(h, chain)
      modifies chain
      ensures forall t :: t in chain ==> t.priority == old(cur.priority) && t.currentDono == 1
      ensures forall t :: t in chain ==>
                (t.origPriority == old(t.origPriority) && t.neededLock == old(t.neededLock) && t.allLocksHeld == old(t.allLocksHeld))
      ensures cur.priority == old(cur.priority)
      decreases |chain|
    {
      if h.neededLock.isNotNull == 1 {
        NextLockNeeded(h.neededLock.holder, cur, chain[1..]);
      }
      var lowLock := h;
      lowLock.currentDono := 1;
      lowLock.priority := cur.priority;
    }
  }

  /** What a condition variable's waiter semaphore offers sort_sem_priority:
      nobody waits on it, or the priority of the front waiter once its own
      waiter list is sorted by sort_priority. */
  datatype Top = Empty | Front(priority: int)

  /** The top of one waiter semaphore: Empty exactly when nobody waits on it,
      and otherwise the highest priority of a thread that does. */
  function CellTop(s: Semaphore): (r: Top)
    reads s, s.waiters
    ensures r.Empty? <==> s.waiters == []
    ensures r.Front? ==> forall t :: t in s.waiters ==> r.priority >= t.priority
    ensures r.Front? ==> exists t :: t in s.waiters && r.priority == t.priority
  {
    if s.waiters == [] then Empty else Front(TopPriority(s.waiters))
  }

  /** Snapshot of the tops of `cells`: the keys of sort_sem_priority. */
  function CellTops(cells: seq<Semaphore>): (m: map<Semaphore, Top>)
    reads *
    ensures forall c :: c in cells ==> c in m
  {
    map c | c in cells :: CellTop(c)
  }

  /** sort_sem_priority over the tops `tops`: a semaphore goes in front of one
      nobody waits on, whatever its own waiters; otherwise it needs waiters
      and a strictly higher top. */
  function SortSemPriority(tops: map<Semaphore, Top>): (less: (Semaphore, Semaphore) -> bool)
    ensures forall a, b :: a in tops && b in tops && tops[b].Empty? ==> less(a, b)
    ensures forall a, b :: a in tops && b in tops && tops[a].Empty? && tops[b].Front? ==> !less(a, b)
    ensures forall a, b :: a in tops && b in tops && tops[a].Front? && tops[b].Front? ==>
              (less(a, b) <==> tops[a].priority > tops[b].priority)
  {
    (a: Semaphore, b: Semaphore) =>
      a in tops && b in tops && (tops[b].Empty? || (tops[a].Front? && tops[a].priority > tops[b].priority))
  }

  /** Every semaphore of `q` has a top. */
  ghost predicate CellsKeyed(q: seq<Semaphore>, tops: map<Semaphore, Top>) {
    forall c :: c in q ==> c in tops
  }

  /** The semaphores with waiters come first, by non-increasing top, and the
      ones nobody waits on after them. */
  ghost predicate Arranged(q: seq<Semaphore>, tops: map<Semaphore, Top>)
    requires CellsKeyed(q, tops)
  {
    forall i, j :: 0 <= i < j < |q| ==> WaitsAtMost(tops, q[i], q[j])
  }

  /** sort_sem_priority is not a strict order: of two semaphores nobody waits
      on, each goes in front of the other, and such a semaphore goes in front
      of itself. */
  lemma SortSemPriorityNotStrict(tops: map<Semaphore, Top>, a: Semaphore, b: Semaphore)
    requires a in tops && b in tops && tops[a] == Empty && tops[b] == Empty
    ensures SortSemPriority(tops)(a, b) && SortSemPriority(tops)(b, a) && SortSemPriority(tops)(a, a)
  {
  }

  /** Ordered insertion with sort_sem_priority keeps the semaphores arranged. */
  lemma {:induction false} InsertKeepsArranged(q: seq<Semaphore>, x: Semaphore, tops: map<Semaphore, Top>)
    requires CellsKeyed(q + [x], tops) && Arranged(q, tops)
    ensures CellsKeyed(InsertOrdered(q, x, SortSemPriority(tops)), tops)
    ensures Arranged(InsertOrdered(q, x, SortSemPriority(tops)), tops)
  {
    var less := SortSemPriority(tops);
    var r := InsertOrdered(q, x, less);
    InsertOrderedMultiset(q, x, less);
    assert CellsKeyed(r, tops) by {
      forall c | c in r ensures c in tops {
        assert c in multiset(r);
        assert c in q + [x];
      }
    }
    if q == [] {
    } else if less(x, q[0]) {
      assert x in q + [x];
      assert q[0] in q + [x];
      forall j | 0 <= j < |q| ensures WaitsAtMost(tops, x, q[j]) {
        assert q[j] in q + [x];
      }
      ArrangedCons(x, q, tops);
    } else {
      var p := q[1..];
      assert q == [q[0]] + p;
      assert CellsKeyed(p + [x], tops) by {
        forall c | c in p + [x] ensures c in q + [x] {
          if c in p { }
        }
      }
      InsertKeepsArranged(p, x, tops);
      var r' := InsertOrdered(p, x, less);
      assert r == [q[0]] + r';
      FrontStaysInFront(q, x, tops, r');
      ArrangedCons(q[0], r', tops);
    }
  }

  /** When `x` does not go in front of the head of an arrangement, the head
      may still stand in front of everything behind it after the insertion. */
  lemma FrontStaysInFront(q: seq<Semaphore>, x: Semaphore, tops: map<Semaphore, Top>, r: seq<Semaphore>)
    requires q != [] && CellsKeyed(q + [x], tops) && Arranged(q, tops)
    requires !SortSemPriority(tops)(x, q[0])
    requires r == InsertOrdered(q[1..], x, SortSemPriority(tops))
    ensures q[0] in tops
    ensures forall j :: 0 <= j < |r| ==> r[j] in tops && WaitsAtMost(tops, q[0], r[j])
  {
    var p := q[1..];
    InsertOrderedMultiset(p, x, SortSemPriority(tops));
    assert x in q + [x];
    assert q[0] in q + [x];
    forall j | 0 <= j < |r| ensures r[j] in tops && WaitsAtMost(tops, q[0], r[j]) {
      assert r[j] in multiset(r);
      if r[j] != x {
        assert r[j] in multiset(p);
        var k :| 0 <= k < |p| && p[k] == r[j];
        assert q[k + 1] == r[j];
        assert q[k + 1] in q + [x];
      }
    }
  }

  /** `b` may stand behind `a` in an arrangement. */
  ghost predicate WaitsAtMost(tops: map<Semaphore, Top>, a: Semaphore, b: Semaphore)
    requires a in tops && b in tops
  {
    tops[b].Empty? || (tops[a].Front? && tops[a].priority >= tops[b].priority)
  }

  /** An arrangement extended in front by a semaphore every element may stand behind. */
  lemma ArrangedCons(h: Semaphore, r: seq<Semaphore>, tops: map<Semaphore, Top>)
    requires h in tops && CellsKeyed(r, tops) && Arranged(r, tops)
    requires forall j :: 0 <= j < |r| ==> WaitsAtMost(tops, h, r[j])
    ensures CellsKeyed([h] + r, tops) && Arranged([h] + r, tops)
  {
    var q := [h] + r;
    forall i, j | 0 <= i < j < |q| ensures WaitsAtMost(tops, q[i], q[j]) {
      if i > 0 {
        assert q[i] == r[i - 1] && q[j] == r[j - 1];
      } else {
        assert q[j] == r[j - 1];
      }
    }
  }

  /** Sorting with sort_sem_priority arranges the semaphores. */
  lemma {:induction false} SortArranges(q: seq<Semaphore>, tops: map<Semaphore, Top>)
    requires CellsKeyed(q, tops)
    ensures CellsKeyed(Sort(q, SortSemPriority(tops)), tops)
    ensures Arranged(Sort(q, SortSemPriority(tops)), tops)
    decreases |q|
  {
    if q != [] {
      var p, x := q[..|q| - 1], q[|q| - 1];
      assert q == p + [x];
      assert CellsKeyed(p, tops) by {
        forall c | c in p ensures c in q { }
      }
      SortArranges(p, tops);
      var s := Sort(p, SortSemPriority(tops));
      assert CellsKeyed(s + [x], tops) by {
        forall c | c in s + [x] ensures c in tops {
          if c in s {
            assert c in multiset(p);
          }
        }
      }
      InsertKeepsArranged(s, x, tops);
    }
  }

  /** The semaphore cond_signal ups: after the sort the front one has the
      highest top, and it has waiters whenever any semaphore does. */
  lemma SortedFrontHasTopCell(q: seq<Semaphore>, tops: map<Semaphore, Top>)
    requires CellsKeyed(q, tops) && q != []
    ensures Sort(q, SortSemPriority(tops))[0] in tops
    ensures forall c :: c in q ==>
      tops[c].Empty? || (tops[Sort(q, SortSemPriority(tops))[0]].Front? &&
                         tops[Sort(q, SortSemPriority(tops))[0]].priority >= tops[c].priority)
  {
    var s := Sort(q, SortSemPriority(tops));
    SortArranges(q, tops);
    assert s[0] in s;
    forall c | c in q
      ensures tops[c].Empty? || (tops[s[0]].Front? && tops[s[0]].priority >= tops[c].priority)
    {
      assert c in multiset(s);
      var j :| 0 <= j < |s| && s[j] == c;
      if j > 0 { }
    }
  }

  /** The semaphore sorted to the front has waiters, and its top priority
      is at least that of every thread waiting on any semaphore of `q`. */
  lemma FrontCellHoldsTopThread(q: seq<Semaphore>)
    requires q != []
    ensures var s := Sort(q, SortSemPriority(CellTops(q)));
            forall c, t :: c in q && t in c.waiters ==> s[0].waiters != [] && TopPriority(s[0].waiters) >= t.priority
  {
    var tops := CellTops(q);
    var s := Sort(q, SortSemPriority(tops));
    SortedFrontHasTopCell(q, tops);
    assert s[0] in multiset(q);
    forall c, t | c in q && t in c.waiters ensures s[0].waiters != [] && TopPriority(s[0].waiters) >= t.priority {
      assert tops[c] == CellTop(c);
      assert tops[s[0]] == CellTop(s[0]);
    }
  }

  /** A new waiter semaphore, which nobody waits on yet, is linked behind
      every semaphore with waiters and in front of the first one without:
      behind all of them when every semaphore has waiters. */
  lemma EmptyCellInsertion(q: seq<Semaphore>, x: Semaphore, tops: map<Semaphore, Top>)
    requires CellsKeyed(q + [x], tops) && tops[x] == Empty
    ensures var k := InsertionPoint(q, x, SortSemPriority(tops));
            && InsertOrdered(q, x, SortSemPriority(tops)) == q[..k] + [x] + q[k..]
            && (forall i :: 0 <= i < k ==> tops[q[i]].Front?)
            && (k < |q| ==> tops[q[k]].Empty?)
    ensures (forall c :: c in q ==> tops[c].Front?) ==> InsertOrdered(q, x, SortSemPriority(tops)) == q + [x]
  {
    InsertOrderedAt(q, x, SortSemPriority(tops));
    var k := InsertionPoint(q, x, SortSemPriority(tops));
    forall i | 0 <= i < k ensures tops[q[i]].Front? {
      assert q[i] in q + [x];
    }
    if k < |q| {
      assert q[k] in q + [x];
    }
  }

  /** No semaphore occurs twice. */
  ghost predicate Distinct(q: seq<Semaphore>) {
    forall c :: c in q ==> multiset(q)[c] == 1
  }

  /** Linking in a semaphore that is not queued yet keeps every semaphore
      queued once. */
  lemma DistinctInsert(q: seq<Semaphore>, x: Semaphore, less: (Semaphore, Semaphore) -> bool)
    requires Distinct(q) && x !in q
    ensures Distinct(InsertOrdered(q, x, less))
  {
    InsertOrderedMultiset(q, x, less);
    var r := InsertOrdered(q, x, less);
    forall c | c in r ensures multiset(r)[c] == 1 {
      assert c in multiset(r);
      if c != x {
        assert c in multiset(q);
      }
    }
  }

  /** Re-sorting distinct semaphores and popping the front leaves the others
      queued once each, without the popped one. */
  lemma DistinctPop(q: seq<Semaphore>, less: (Semaphore, Semaphore) -> bool)
    requires Distinct(q) && q != []
    ensures var s := Sort(q, less);
            && s == [s[0]] + s[1..] && s[0] in q && s[0] !in s[1..]
            && Distinct(s[1..]) && (forall c :: c in s[1..] ==> c in q)
  {
    var s := Sort(q, less);
    assert s == [s[0]] + s[1..];
    assert multiset(s) == multiset{s[0]} + multiset(s[1..]);
    assert s[0] in multiset(q);
    forall c | c in s[1..] ensures c in q && multiset(s[1..])[c] == 1 {
      assert c in multiset(s);
    }
  }

  /** A condition variable: one waiter semaphore per waiting thread. */
  class Condition {
    var waiters: seq<Semaphore>

    /** cond_init. */
    constructor ()
      ensures waiters == []
    {
      waiters := [];
    }

    /** Each waiter semaphore is queued once. */
    ghost predicate Valid()
      reads this
    {
      Distinct(waiters)
    }

    /** cond_wait up to the point where the caller sleeps: a fresh semaphore
        of value 0 is linked into the waiters (Enqueue), the lock is released
        and the caller sleeps on the new semaphore (Sleep). Once woken it runs Semaphore.Down on `cell` again
        and then Lock.Acquire. */
    method Wait(cur: Thread, lock: Lock, inIntr: bool) returns (cell: Semaphore, woken: Thread?)
      requires !inIntr && lock.HeldByCurrentThread(cur) && lock.Valid()
      requires Valid()
      modifies this, lock`holder, lock`isntChain, lock.semaphore, cur`priority, cur`currentDono, cur`allLocksHeld
      ensures Valid() && lock.Valid()
      ensures fresh(cell) && cell.value == 0 && cell.waiters == [cur]
      ensures waiters == InsertOrdered(old(waiters), cell, SortSemPriority(old(CellTops(waiters))[cell := Empty]))
      ensures lock.LeftBy(cur, Remove(old(cur.allLocksHeld), lock), old(LockPriorities(Remove(cur.allLocksHeld, lock))),
                          old(cur.priority), old(cur.currentDono), old(lock.isntChain))
      ensures lock.priority == old(lock.priority) && lock.isNotNull == old(lock.isNotNull)
      ensures cur.origPriority == old(cur.origPriority) && cur.neededLock == old(cur.neededLock)
      ensures lock.semaphore.Upped(old(lock.semaphore.value), old(lock.semaphore.waiters), Priorities(old(lock.semaphore.waiters)), woken)
    {
      ghost var keys := LockPriorities(Remove(cur.allLocksHeld, lock));
      cell := Enqueue();
      ghost var queue := waiters;
      assert LockPriorities(Remove(cur.allLocksHeld, lock)) == keys;
      woken := Sleep(cur, lock, cell, inIntr);
      assert waiters == queue;
    }

    /** Lines 453-454 of cond_wait: the lock is released (`woken` is the
        thread that release wakes) and the caller goes down on its own,
        still unsignalled, semaphore and sleeps there. */
    static method Sleep(cur: Thread, lock: Lock, cell: Semaphore, inIntr: bool) returns (woken: Thread?)
      requires !inIntr && lock.HeldByCurrentThread(cur) && lock.Valid()
      requires cell.value == 0 && cell.waiters == [] && cell != lock.semaphore
      modifies lock`holder, lock`isntChain, lock.semaphore, cur`priority, cur`currentDono, cur`allLocksHeld, cell
      ensures cell.value == 0 && cell.waiters == [cur] && lock.Valid()
      ensures lock.LeftBy(cur, Remove(old(cur.allLocksHeld), lock), old(LockPriorities(Remove(cur.allLocksHeld, lock))),
                          old(cur.priority), old(cur.currentDono), old(lock.isntChain))
      ensures lock.priority == old(lock.priority) && lock.isNotNull == old(lock.isNotNull)
      ensures cur.origPriority == old(cur.origPriority) && cur.neededLock == old(cur.neededLock)
      ensures lock.semaphore.Upped(old(lock.semaphore.value), old(lock.semaphore.waiters), Priorities(old(lock.semaphore.waiters)), woken)
    {
      ghost var rest := Remove(cur.allLocksHeld, lock);
      ghost var keys := LockPriorities(rest);
      woken := lock.Release(cur);
      ghost var key := Priorities(old(lock.semaphore.waiters));
      assert lock.LeftBy(cur, rest, keys, old(cur.priority), old(cur.currentDono), old(lock.isntChain));
      assert lock.semaphore.Upped(old(lock.semaphore.value), old(lock.semaphore.waiters), key, woken);
      var blocks := cell.Down(cur, inIntr);
      assert lock.LeftBy(cur, rest, keys, old(cur.priority), old(cur.currentDono), old(lock.isntChain));
      assert lock.semaphore.Upped(old(lock.semaphore.value), old(lock.semaphore.waiters), key, woken);
    }

    /** Lines 443-451 of cond_wait: a new semaphore of value 0, which nobody
        waits on yet, is linked in by sort_sem_priority. */
    method Enqueue() returns (cell: Semaphore)
      requires Valid()
      modifies this
      ensures Valid()
      ensures fresh(cell) && cell.value == 0 && cell.waiters == []
      ensures waiters == InsertOrdered(old(waiters), cell, SortSemPriority(old(CellTops(waiters))[cell := Empty]))
    {
      var tops := CellTops(waiters);
      cell := new Semaphore(0);
      DistinctInsert(waiters, cell, SortSemPriority(tops[cell := Empty]));
      waiters := InsertOrdered(waiters, cell, SortSemPriority(tops[cell := Empty]));
    }

    /** cond_signal: when some semaphore waits, the waiters are sorted by
        sort_sem_priority and the front one is removed and upped. The woken
        thread has the highest priority of all threads waiting on the
        condition; every other waiter semaphore is left as it was. */
    method Signal(cur: Thread, lock: Lock, inIntr: bool) returns (signalled: Semaphore?, woken: Thread?)
      requires !inIntr && lock.HeldByCurrentThread(cur)
      requires Valid()
      modifies this, waiters
      ensures Valid()
      ensures old(waiters) == [] ==> signalled == null && woken == null && waiters == []
      ensures old(waiters) != [] ==> signalled != null && signalled in old(waiters)
      ensures old(waiters) != [] ==> multiset(waiters) + multiset{signalled} == multiset(old(waiters))
      ensures old(waiters) != [] ==> signalled.Upped(old(signalled.value), old(signalled.waiters), old(Priorities(signalled.waiters)), woken)
      ensures old(waiters) != [] ==> forall c :: c in old(waiters) ==> WaitsAtMost(old(CellTops(waiters)), signalled, c)
      ensures old(waiters) != [] && old(signalled.waiters) != [] ==> old(CellTops(waiters))[signalled] == Front(woken.priority)
      ensures forall c :: c in old(waiters) && c != signalled ==> c.value == old(c.value) && c.waiters == old(c.waiters)
      ensures forall i :: 0 <= i < |waiters| ==> waiters[i] in old(waiters) && waiters[i] != signalled
    {
      if waiters == [] {
        return null, null;
      } else {
        signalled := PopTop();
        woken := signalled.Up();
      }
    }

    /** Lines 475-477 of cond_signal: the waiters are re-sorted by
        sort_sem_priority and the front semaphore is popped; it holds a
        thread of the highest priority among all threads waiting on the
        condition. */
    method PopTop() returns (signalled: Semaphore)
      requires Valid() && waiters != []
      modifies this
      ensures Valid()
      ensures signalled in old(waiters)
      ensures [signalled] + waiters == Sort(old(waiters), SortSemPriority(old(CellTops(waiters))))
      ensures multiset(waiters) + multiset{signalled} == multiset(old(waiters))
      ensures forall i :: 0 <= i < |waiters| ==> waiters[i] in old(waiters) && waiters[i] != signalled
      ensures forall c :: c in old(waiters) ==> WaitsAtMost(old(CellTops(waiters)), signalled, c)
    {
      var tops := CellTops(waiters);
      var sorted := Sort(waiters, SortSemPriority(tops));
      SortedFrontHasTopCell(waiters, tops);
      DistinctPop(waiters, SortSemPriority(tops));
      signalled := sorted[0];
      waiters := sorted[1..];
    }

    /** One round of cond_broadcast's loop: cond_signal on a non-empty queue,
        stated as the loop needs it. */
    method SignalOne(cur: Thread, lock: Lock, inIntr: bool) returns (signalled: Semaphore, woken: Thread?)
      requires !inIntr && lock.HeldByCurrentThread(cur)
      requires Valid() && waiters != []
      modifies this, waiters
      ensures Valid()
      ensures signalled in old(waiters) && |waiters| == |old(waiters)| - 1
      ensures signalled.Upped(old(signalled.value), old(signalled.waiters), old(Priorities(signalled.waiters)), woken)
      ensures forall c :: c in old(waiters) && c != signalled ==>
                c in waiters && c.value == old(c.value) && c.waiters == old(c.waiters)
      ensures forall i :: 0 <= i < |waiters| ==> waiters[i] in old(waiters) && waiters[i] != signalled
    {
      var s;
      s, woken := Signal(cur, lock, inIntr);
      signalled := s;
      assert |multiset(waiters)| + 1 == |multiset(old(waiters))|;
      forall c | c in old(waiters) && c != signalled ensures c in waiters {
        assert c in multiset(old(waiters));
      }
    }

    /** cond_broadcast: signals until no semaphore waits, so every waiter
        semaphore is upped exactly once, as Semaphore.Up states, and `woken`
        maps it to the thread that up woke: every thread that was waiting on
        the condition. */
    method Broadcast(cur: Thread, lock: Lock, inIntr: bool) returns (woken: map<Semaphore, Thread?>)
      requires waiters != [] ==> !inIntr && lock.HeldByCurrentThread(cur)
      requires Valid()
      modifies this, waiters
      ensures Valid() && waiters == []
      ensures forall c :: c in old(waiters) ==> c.value == old(c.value) + 1
      ensures forall c :: c in old(waiters) ==>
                c in woken && c.Upped(old(c.value), old(c.waiters), old(Priorities(c.waiters)), woken[c])
    {
      ghost var done: set<Semaphore> := {};
      woken := map[];
      while waiters != []
        invariant Valid()
        invariant waiters != [] ==> !inIntr && lock.HeldByCurrentThread(cur)
        invariant forall i :: 0 <= i < |waiters| ==> waiters[i] in old(waiters) && waiters[i] !in done
        invariant forall c :: c in old(waiters) ==> c in done || c in waiters
        invariant forall c :: c in old(waiters) && c !in done ==> c.value == old(c.value) && c.waiters == old(c.waiters)
        invariant forall c :: c in done ==>
                    c in old(waiters) && c in woken && c.Upped(old(c.value), old(c.waiters), old(Priorities(c.waiters)), woken[c])
        decreases |waiters|
      {
        var signalled, w := SignalOne(cur, lock, inIntr);
        woken := woken[signalled := w];
        done := done + {signalled};
      }
    }
  }
}
