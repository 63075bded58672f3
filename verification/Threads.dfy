/**
 Threads and mutexes of one execution state: a round-robin scheduler and mutexes
 with first-come-first-served queues.
 */
module Threads {
  import opened Collections

  const EPERM := 1
  const EBUSY := 16
  const EINVAL := 22
  const EDEADLK := 35

  datatype MutexInfo = MutexInfo(acquired: bool, waiters: seq<int>, owner: int)

  /** The part of an execution state that threads share. */
  datatype Sync = Sync(threads: set<int>, blocked: set<int>, mutexes: map<nat, MutexInfo>, lastTid: int, maxThread: int)

  /** What the running thread does next. */
  datatype Op = CreateThread | Init(m: nat) | Destroy(m: nat) | Lock(m: nat) | Unlock(m: nat) | Trylock(m: nat) | Other

  // --------------------------------------------------------------------- scheduling

  function Runnable(s: Sync): set<int> {
    s.threads - s.blocked
  }

  /** The least runnable thread above the last one, else the least of all; -1 if there
      is none. */
  ghost predicate Picked(runnable: set<int>, last: int, tid: int) {
    if runnable == {} then tid == -1
    else
      tid in runnable
      && if exists t :: t in runnable && t > last
         then tid > last && forall t :: t in runnable && t > last ==> tid <= t
         else forall t :: t in runnable ==> tid <= t
  }

  lemma PickedRuns(runnable: set<int>, last: int, tid: int)
    requires Picked(runnable, last, tid) && runnable != {}
    ensures tid in runnable
  {
  }

  lemma PickedUnique(runnable: set<int>, last: int, tid: int, tid': int)
    requires Picked(runnable, last, tid) && Picked(runnable, last, tid')
    ensures tid == tid'
  {
  }

  // ------------------------------------------------------------- what the calls do

  function Created(s: Sync): Sync {
    var tid := s.maxThread + 1;
    s.(threads := s.threads + {tid}, maxThread := tid, lastTid := if s.lastTid < 0 then tid else s.lastTid)
  }

  function Locked(s: Sync, tid: int, m: nat): Sync
    requires m in s.mutexes
  {
    var i := s.mutexes[m];
    if i.acquired then
      s.(mutexes := s.mutexes[m := i.(waiters := i.waiters + [tid])], blocked := s.blocked + {tid})
    else
      s.(mutexes := s.mutexes[m := i.(acquired := true, owner := tid)])
  }

  function Unlocked(s: Sync, m: nat): Sync
    requires m in s.mutexes
  {
    var i := s.mutexes[m];
    if i.waiters != [] then
      s.(mutexes := s.mutexes[m := i.(waiters := i.waiters[1..], owner := i.waiters[0])],
         blocked := s.blocked - {i.waiters[0]})
    else
      s.(mutexes := s.mutexes[m := i.(acquired := false)])
  }

  /** The new state and the value returned to thread `tid`. */
  function Result(s: Sync, tid: int, op: Op): (Sync, int) {
    match op
    case CreateThread => (Created(s), s.maxThread + 1)
    case Init(m) =>
      if m in s.mutexes then (s, EBUSY) else (s.(mutexes := s.mutexes[m := MutexInfo(false, [], 0)]), 0)
    case Destroy(m) =>
      if m !in s.mutexes then (s, EINVAL)
      else if s.mutexes[m].acquired then (s, EBUSY)
      else (s.(mutexes := s.mutexes - {m}), 0)
    case Lock(m) =>
      if m !in s.mutexes then (s, EINVAL)
      else if s.mutexes[m].acquired && s.mutexes[m].owner == tid then (s, EDEADLK)
      else (Locked(s, tid, m), 0)
    case Unlock(m) =>
      if m !in s.mutexes then (s, EINVAL)
      else if !s.mutexes[m].acquired || s.mutexes[m].owner != tid then (s, EPERM)
      else (Unlocked(s, m), 0)
    case Trylock(m) =>
      if m !in s.mutexes then (s, EINVAL)
      else if s.mutexes[m].acquired then (s, EBUSY)
      else (Locked(s, tid, m), 0)
    case Other => (s, 0)
  }

  // --------------------------------------------------------------------- invariants

  /** A queue without repetition, behind an owner who is not in it. */
  predicate QueueOk(i: MutexInfo) {
    NoDuplicates(i.waiters) && (i.waiters != [] ==> i.acquired && i.owner !in i.waiters)
  }

  ghost predicate Waits(s: Sync, m: nat, tid: int) {
    m in s.mutexes && tid in s.mutexes[m].waiters
  }

  /** Blocked threads are those in queues, each in one queue only. */
  ghost predicate Blocking(s: Sync) {
    (forall t :: t in s.blocked ==> exists m :: Waits(s, m, t))
    && (forall m, t :: Waits(s, m, t) ==> t in s.blocked)
    && (forall m, m', t :: Waits(s, m, t) && Waits(s, m', t) ==> m == m')
  }

  ghost predicate Inv(s: Sync) {
    (forall t :: t in s.threads ==> 0 <= t <= s.maxThread)
    && s.blocked <= s.threads
    && (forall m :: m in s.mutexes ==> QueueOk(s.mutexes[m]))
    && (forall m :: m in s.mutexes && s.mutexes[m].acquired ==> s.mutexes[m].owner in s.threads)
    && Blocking(s)
  }

  /** One scheduling step: the picked thread makes its call. */
  ghost predicate Step(s: Sync, s': Sync) {
    exists tid, op :: StepBy(s, tid, op, s')
  }

  ghost predicate StepBy(s: Sync, tid: int, op: Op, s': Sync) {
    tid in Runnable(s) && Picked(Runnable(s), s.lastTid, tid) && s' == Result(s, tid, op).0.(lastTid := tid)
  }

  lemma SameBlocking(s: Sync, s': Sync)
    requires Blocking(s) && s'.blocked == s.blocked && forall m, t :: Waits(s', m, t) <==> Waits(s, m, t)
    ensures Blocking(s')
  {
    hide Waits;
  }

  lemma MoreBlocking(s: Sync, s': Sync, m: nat, tid: int)
    requires Blocking(s) && s'.blocked == s.blocked + {tid} && tid !in s.blocked
    requires forall m', t :: Waits(s', m', t) <==> Waits(s, m', t) || (m' == m && t == tid)
    ensures Blocking(s')
  {
    hide Waits;
    assert Waits(s', m, tid);
  }

  lemma LessBlocking(s: Sync, s': Sync, m: nat, tid: int)
    requires Blocking(s) && s'.blocked == s.blocked - {tid} && Waits(s, m, tid)
    requires forall m', t :: Waits(s', m', t) <==> Waits(s, m', t) && !(m' == m && t == tid)
    ensures Blocking(s')
  {
    hide Waits;
  }

  lemma Appended(q: seq<int>, tid: int)
    requires NoDuplicates(q) && tid !in q
    ensures NoDuplicates(q + [tid]) && forall t :: t in q + [tid] <==> t in q || t == tid
  {
  }

  lemma Popped(q: seq<int>)
    requires NoDuplicates(q) && q != []
    ensures NoDuplicates(q[1..]) && forall t :: t in q[1..] <==> t in q && t != q[0]
  {
    assert q == [q[0]] + q[1..];
  }

  lemma LockedInv(s: Sync, tid: int, m: nat)
    requires Inv(s) && tid in Runnable(s) && m in s.mutexes
    requires s.mutexes[m].acquired ==> s.mutexes[m].owner != tid
    ensures Inv(Locked(s, tid, m))
  {
    hide Blocking, NoDuplicates;
    var s', i := Locked(s, tid, m), s.mutexes[m];
    NotWaiting(s, m, tid);
    if i.acquired {
      Appended(i.waiters, tid);
      MoreBlocking(s, s', m, tid);
    } else {
      SameBlocking(s, s');
    }
  }

  lemma NotWaiting(s: Sync, m: nat, tid: int)
    requires Blocking(s) && tid !in s.blocked
    ensures !Waits(s, m, tid)
  {
  }

  lemma UnlockedInv(s: Sync, m: nat)
    requires Inv(s) && m in s.mutexes && s.mutexes[m].acquired
    ensures Inv(Unlocked(s, m))
  {
    hide Blocking, NoDuplicates;
    var s', i := Unlocked(s, m), s.mutexes[m];
    if i.waiters != [] {
      Popped(i.waiters);
      assert Waits(s, m, i.waiters[0]);
      LessBlocking(s, s', m, i.waiters[0]);
      WaiterIsThread(s, m, i.waiters[0]);
    } else {
      SameBlocking(s, s');
    }
  }

  lemma WaiterIsThread(s: Sync, m: nat, tid: int)
    requires Blocking(s) && s.blocked <= s.threads && Waits(s, m, tid)
    ensures tid in s.threads
  {
  }

  lemma ResultInv(s: Sync, tid: int, op: Op)
    requires Inv(s) && tid in Runnable(s)
    ensures Inv(Result(s, tid, op).0)
  {
    hide Blocking, Locked, Unlocked;
    var s' := Result(s, tid, op).0;
    match op
    case Lock(m) =>
      if s' != s {
        LockedInv(s, tid, m);
      }
    case Trylock(m) =>
      if s' != s {
        LockedInv(s, tid, m);
      }
    case Unlock(m) =>
      if s' != s {
        UnlockedInv(s, m);
      }
    case _ =>
      SameBlocking(s, s');
  }

  /** Every step keeps the queues in order. */
  lemma StepInv(s: Sync, s': Sync)
    requires Inv(s) && Step(s, s')
    ensures Inv(s')
  {
    hide Result;
    var tid, op :| StepBy(s, tid, op, s');
    ResultInv(s, tid, op);
    SameBlocking(Result(s, tid, op).0, s');
  }

  // --------------------------------------------------------------------------- runs

  ghost predicate IsRun(run: seq<Sync>) {
    |run| > 0 && Inv(run[0]) && forall i :: 0 <= i < |run| - 1 ==> Step(run[i], run[i + 1])
  }

  lemma {:induction false} RunInv(run: seq<Sync>, k: nat)
    requires IsRun(run) && k < |run|
    ensures Inv(run[k])
  {
    hide Inv, Step;
    if k > 0 {
      RunInv(run, k - 1);
      assert run[k - 1 + 1] == run[k];
      StepInv(run[k - 1], run[k]);
    }
  }

  /** `t` is before `u` in the queue of `m`. */
  ghost predicate Ahead(s: Sync, m: nat, t: int, u: int) {
    m in s.mutexes
    && (var q := s.mutexes[m].waiters; exists i, j :: 0 <= i < j < |q| && q[i] == t && q[j] == u)
  }

  ghost predicate Holds(s: Sync, m: nat, t: int) {
    m in s.mutexes && s.mutexes[m].acquired && s.mutexes[m].owner == t && t !in s.blocked
  }

  /** A queue changes at its ends only: a newcomer goes to the back, and the thread that
      leaves from the front gets the mutex. */
  lemma QueueStep(s: Sync, s': Sync, m: nat)
    requires Inv(s) && Step(s, s') && m in s.mutexes && s.mutexes[m].waiters != []
    ensures m in s'.mutexes
    ensures var q, q' := s.mutexes[m].waiters, s'.mutexes[m].waiters;
            q <= q' || (q[1..] == q' && Holds(s', m, q[0]))
  {
    hide Blocking, NoDuplicates;
    var tid, op :| StepBy(s, tid, op, s');
    var q := s.mutexes[m].waiters;
    if op == Unlock(m) {
      assert q[1..] == s'.mutexes[m].waiters || s'.mutexes[m].waiters == q;
    }
  }

  /** A thread leaves a queue only by getting the mutex, and nobody overtakes it. */
  lemma FifoStep(s: Sync, s': Sync, m: nat, t: int, u: int)
    requires Inv(s) && Step(s, s') && Ahead(s, m, t, u)
    ensures Ahead(s', m, t, u) || (Holds(s', m, t) && Waits(s', m, u))
  {
    hide Inv, Step, Holds;
    QueueStep(s, s', m);
    var q, q' := s.mutexes[m].waiters, s'.mutexes[m].waiters;
    var i, j :| 0 <= i < j < |q| && q[i] == t && q[j] == u;
    if q <= q' {
      assert q'[i] == t && q'[j] == u;
    } else if i > 0 {
      assert q'[i - 1] == t && q'[j - 1] == u;
    } else {
      assert q'[j - 1] == u;
    }
  }

  /** Ownership goes in the order of arrival: as long as `t` waits, `u` behind it waits
      too, and when `t` no longer waits, it is because it has been given the mutex. */
  lemma {:induction false} Fifo(run: seq<Sync>, m: nat, t: int, u: int, k: nat)
    requires IsRun(run) && k < |run| && Ahead(run[0], m, t, u)
    requires forall i :: 0 <= i < k ==> Waits(run[i], m, t)
    ensures Ahead(run[k], m, t, u) || (Holds(run[k], m, t) && Waits(run[k], m, u) && !Waits(run[k], m, t))
  {
    hide Inv, Step, Holds, Ahead;
    if k > 0 {
      Fifo(run, m, t, u, k - 1);
      RunInv(run, k - 1);
      assert run[k - 1 + 1] == run[k];
      FifoStep(run[k - 1], run[k], m, t, u);
      RunInv(run, k);
      if !Ahead(run[k], m, t, u) {
        HolderDoesNotWait(run[k], m, t);
      }
    }
  }

  lemma HolderDoesNotWait(s: Sync, m: nat, t: int)
    requires Inv(s) && Holds(s, m, t)
    ensures !Waits(s, m, t)
  {
  }

  // --------------------------------------------------------- what the callers are told

  /** Two states that differ at mutex `m` and in who is blocked only. */
  predicate SameBut(s: Sync, s': Sync, m: nat) {
    s'.threads == s.threads && s'.lastTid == s.lastTid && s'.maxThread == s.maxThread
    && s'.mutexes.Keys + {m} == s.mutexes.Keys + {m}
    && forall k :: k in s.mutexes && k != m ==> s'.mutexes[k] == s.mutexes[k]
  }

  /** A new thread has a number of its own and can run; nothing else changes for the
      others. */
  lemma CreateOutcome(s: Sync, tid: int)
    requires Inv(s)
    ensures var (s', r) := Result(s, tid, CreateThread);
            r !in s.threads && s'.threads == s.threads + {r} && r in Runnable(s')
            && s'.blocked == s.blocked && s'.mutexes == s.mutexes
            && (s.lastTid >= 0 ==> s'.lastTid == s.lastTid)
            && forall t :: t in s'.threads ==> t <= s'.maxThread
  {
    hide Blocking, QueueOk;
  }

  /** Only an unknown mutex can be initialised; it is free then. */
  lemma InitOutcome(s: Sync, tid: int, m: nat)
    requires Inv(s) && tid in Runnable(s)
    ensures var (s', r) := Result(s, tid, Init(m));
            (r == EBUSY <==> m in s.mutexes) && (r == 0 <==> m !in s.mutexes)
            && (r == 0 ==> m in s'.mutexes && !s'.mutexes[m].acquired && s'.mutexes[m].waiters == [])
            && SameBut(s, s', m) && s'.blocked == s.blocked && (r != 0 ==> s' == s)
  {
    hide Inv;
  }

  /** A successful lock gives the mutex if it is free, else the last place in its queue;
      relocking is refused. */
  lemma LockOutcome(s: Sync, tid: int, m: nat)
    requires Inv(s) && tid in Runnable(s)
    ensures var (s', r) := Result(s, tid, Lock(m));
            (r == EINVAL <==> m !in s.mutexes) && (r == EDEADLK <==> Holds(s, m, tid))
            && (r == 0 <==> m in s.mutexes && !Holds(s, m, tid))
            && (r == 0 ==>
                  (m in s'.mutexes && (Holds(s', m, tid) <==> tid !in s'.blocked) && (Waits(s', m, tid) <==> tid in s'.blocked)
                   && (tid in s'.blocked <==> s.mutexes[m].acquired)
                   && s.blocked <= s'.blocked <= s.blocked + {tid}
                   && s'.mutexes[m].waiters == if s.mutexes[m].acquired then s.mutexes[m].waiters + [tid] else []))
            && SameBut(s, s', m) && (r != 0 ==> s' == s)
  {
    hide Blocking, QueueOk;
    NotWaiting(s, m, tid);
    if m in s.mutexes {
      if !s.mutexes[m].acquired {
        FreeHasNoQueue(s, m);
      }
      assert tid in s.mutexes[m].waiters + [tid];
    }
  }

  lemma FreeHasNoQueue(s: Sync, m: nat)
    requires Inv(s) && m in s.mutexes && !s.mutexes[m].acquired
    ensures s.mutexes[m].waiters == []
  {
    hide Blocking;
  }

  /** Only the owner can unlock; afterwards it no longer holds the mutex, which the
      first in the queue does if there was one, and which is free otherwise. */
  lemma UnlockOutcome(s: Sync, tid: int, m: nat)
    requires Inv(s) && tid in Runnable(s)
    ensures var (s', r) := Result(s, tid, Unlock(m));
            (r == EINVAL <==> m !in s.mutexes) && (r == 0 <==> Holds(s, m, tid))
            && (r == EPERM <==> m in s.mutexes && !Holds(s, m, tid))
            && (r == 0 ==>
                  (m in s'.mutexes && !Holds(s', m, tid)
                   && (s'.mutexes[m].acquired <==> s.mutexes[m].waiters != [])))
            && (r == 0 && s.mutexes[m].waiters != [] ==>
                  (Holds(s', m, s.mutexes[m].waiters[0]) && s'.blocked == s.blocked - {s.mutexes[m].waiters[0]}
                   && s.mutexes[m].waiters == [s.mutexes[m].waiters[0]] + s'.mutexes[m].waiters))
            && (r == 0 && s.mutexes[m].waiters == [] ==> s'.blocked == s.blocked && s'.mutexes[m].waiters == [])
            && SameBut(s, s', m) && (r != 0 ==> s' == s)
  {
    hide Blocking, NoDuplicates;
  }

  /** Trying to lock succeeds exactly on a free mutex and never blocks. */
  lemma TrylockOutcome(s: Sync, tid: int, m: nat)
    requires Inv(s) && tid in Runnable(s)
    ensures var (s', r) := Result(s, tid, Trylock(m));
            (r == EINVAL <==> m !in s.mutexes) && (r == EBUSY <==> m in s.mutexes && s.mutexes[m].acquired)
            && (r == 0 <==> m in s.mutexes && !s.mutexes[m].acquired)
            && (r == 0 ==> Holds(s', m, tid)) && s'.blocked == s.blocked
            && SameBut(s, s', m) && (r != 0 ==> s' == s)
  {
    hide Inv;
  }

  /** Destroying succeeds exactly on a free mutex, and so never strands a waiter. */
  lemma DestroyOutcome(s: Sync, tid: int, m: nat)
    requires Inv(s) && tid in Runnable(s)
    ensures var (s', r) := Result(s, tid, Destroy(m));
            (r == EINVAL <==> m !in s.mutexes) && (r == EBUSY <==> m in s.mutexes && s.mutexes[m].acquired)
            && (r == 0 <==> m in s.mutexes && !s.mutexes[m].acquired)
            && (r == 0 ==> m !in s'.mutexes && s.mutexes[m].waiters == [])
            && SameBut(s, s', m) && s'.blocked == s.blocked && (r != 0 ==> s' == s)
  {
    hide Blocking;
  }

  // ----------------------------------------------------------------------- fairness

  predicate Ascending(q: seq<int>) {
    forall i, j :: 0 <= i < j < |q| ==> q[i] < q[j]
  }

  lemma MaxOf(r: set<int>) returns (m: int)
    requires r != {}
    ensures m in r && forall t :: t in r ==> t <= m
    decreases |r|
  {
    HasMember(r);
    m :| m in r;
    var rest := r - {m};
    if rest != {} {
      var m' := MaxOf(rest);
      assert forall t :: t in r ==> t == m || t in rest;
      m := if m < m' then m' else m;
    }
  }

  /** The threads in ascending order. */
  lemma InOrder(r: set<int>) returns (q: seq<int>)
    ensures Ascending(q) && |q| == |r| && forall t :: t in r <==> t in q
    decreases |r|
  {
    if r == {} {
      q := [];
    } else {
      var m := MaxOf(r);
      var q' := InOrder(r - {m});
      q := q' + [m];
      forall i | 0 <= i < |q'| ensures q'[i] < m {
        assert q'[i] in q';
      }
      assert r == (r - {m}) + {m};
      assert forall t :: t in q <==> t in q' || t == m;
    }
  }

  function Succ(i: nat, n: nat): (j: nat)
    requires i < n
    ensures j < n
  {
    if i + 1 == n then 0 else i + 1
  }

  /** After the thread at one place comes the thread at the next, round and round. */
  lemma NextInOrder(r: set<int>, q: seq<int>, i: nat, tid: int)
    requires Ascending(q) && (forall t :: t in r <==> t in q) && i < |q| && Picked(r, q[i], tid)
    ensures tid == q[Succ(i, |q|)]
  {
    var n := |q|;
    assert q[i] in r;
    if i + 1 < n {
      assert q[i + 1] in r && q[i + 1] > q[i];
      var x :| 0 <= x < n && q[x] == tid;
      assert x > i;
    } else {
      assert forall t :: t in r ==> t <= q[i];
      assert q[0] in r;
    }
  }

  /** The same threads can run at every point of the run. */
  ghost predicate Steady(run: seq<Sync>, r: set<int>) {
    IsRun(run) && forall i :: 0 <= i < |run| ==> Runnable(run[i]) == r
  }

  lemma StepPicks(run: seq<Sync>, r: set<int>, k: nat)
    requires Steady(run, r) && k + 1 < |run|
    ensures run[k + 1].lastTid in r && Picked(r, run[k].lastTid, run[k + 1].lastTid)
  {
    hide Inv, Picked, Result;
    assert Step(run[k], run[k + 1]);
  }

  /** Where in the order the thread picked `d` steps after step `j` is. */
  lemma {:induction false} Rotation(run: seq<Sync>, r: set<int>, q: seq<int>, j: nat, i: nat, d: nat)
    requires Steady(run, r) && Ascending(q) && (forall t :: t in r <==> t in q)
    requires 0 < j && j + d < |run| && i < |q| && run[j].lastTid == q[i] && d < |q|
    ensures run[j + d].lastTid == q[if i + d < |q| then i + d else i + d - |q|]
  {
    hide Steady, Picked, Ascending;
    if d > 0 {
      Rotation(run, r, q, j, i, d - 1);
      var p := if i + (d - 1) < |q| then i + (d - 1) else i + (d - 1) - |q|;
      StepPicks(run, r, j + d - 1);
      NextInOrder(r, q, p, run[j + d].lastTid);
    }
  }

  /** While the set of runnable threads stays the same, each of them runs exactly once
      in as many consecutive steps as there are of them. */
  lemma RoundRobin(run: seq<Sync>, r: set<int>, j: nat, t: int)
    requires Steady(run, r) && t in r && 0 < j && j + |r| <= |run|
    ensures exists k :: j <= k < j + |r| && run[k].lastTid == t
    ensures forall k, k' :: j <= k < k' < j + |r| ==> run[k].lastTid != run[k'].lastTid
  {
    hide Steady, Picked;
    var q := InOrder(r);
    var n := |q|;
    StepPicks(run, r, j - 1);
    var i :| 0 <= i < n && q[i] == run[j].lastTid;
    var x :| 0 <= x < n && q[x] == t;
    var d := if i <= x then x - i else x - i + n;
    Rotation(run, r, q, j, i, d);
    assert run[j + d].lastTid == t;
    forall k, k' | j <= k < k' < j + n ensures run[k].lastTid != run[k'].lastTid {
      Rotation(run, r, q, j, i, k - j);
      Rotation(run, r, q, j, i, k' - j);
    }
  }

  // ---------------------------------------------------------------------- the class

  class ThreadedState {
    var threads: set<int>
    var blockedThreads: set<int>
    var mutexes: map<nat, MutexInfo>
    var lastTid: int
    var maxThreadNumber: int

    ghost function View(): Sync
      reads this
    {
      Sync(threads, blockedThreads, mutexes, lastTid, maxThreadNumber)
    }

    constructor ()
      ensures View() == Sync({0}, {}, map[], 0, 0) && Inv(View())
    {
      threads, blockedThreads, mutexes := {0}, {}, map[];
      lastTid, maxThreadNumber := 0, 0;
    }

    /** The scheduler's scan over all threads, in any order. */
    method NextThread() returns (tid: int)
      requires forall t :: t in threads ==> t >= 0
      ensures Picked(threads - blockedThreads, lastTid, tid)
    {
      var minTid, nextTid := -1, -1;
      var pending := threads;
      while pending != {}
        invariant pending <= threads
        invariant Scanned(threads - pending - blockedThreads, lastTid, minTid, nextTid)
        decreases pending
      {
        HasMember(pending);
        var t :| t in pending;
        ghost var seen := threads - pending - blockedThreads;
        if t !in blockedThreads {
          if t > lastTid && (nextTid == -1 || nextTid > t) {
            nextTid := t;
          }
          if minTid == -1 || minTid > t {
            minTid := t;
          }
        }
        pending := pending - {t};
        assert threads - pending - blockedThreads == if t in blockedThreads then seen else seen + {t};
      }
      assert threads - pending - blockedThreads == threads - blockedThreads;
      tid := if nextTid == -1 then minTid else nextTid;
    }

    /** One instruction of the thread whose turn it is. */
    method RunNextInstruction(op: Op) returns (tid: int, r: int)
      requires Inv(View()) && Runnable(View()) != {}
      modifies this
      ensures StepBy(old(View()), tid, op, View()) && r == Result(old(View()), tid, op).1
      ensures Inv(View())
    {
      hide Result, Blocking, Picked, QueueOk;
      tid := NextThread();
      PickedRuns(Runnable(View()), lastTid, tid);
      r := Call(tid, op);
      lastTid := tid;
      assert StepBy(old(View()), tid, op, View());
      StepInv(old(View()), View());
    }

    method Call(tid: int, op: Op) returns (r: int)
      modifies this
      ensures (View(), r) == old(Result(View(), tid, op))
    {
      match op
      case CreateThread => r := CreateThread();
      case Init(m) => r := MutexInit(m);
      case Destroy(m) => r := MutexDestroy(m);
      case Lock(m) => r := MutexLock(tid, m);
      case Unlock(m) => r := MutexUnlock(tid, m);
      case Trylock(m) => r := MutexTrylock(tid, m);
      case Other => r := 0;
    }

    method CreateThread() returns (tid: int)
      modifies this
      ensures View() == old(Created(View())) && tid == maxThreadNumber
    {
      tid := maxThreadNumber + 1;
      maxThreadNumber := maxThreadNumber + 1;
      threads := threads + {tid};
      if lastTid < 0 {
        lastTid := tid;
      }
    }

    method MutexInit(m: nat) returns (r: int)
      modifies this`mutexes
      ensures (View(), r) == old(Result(View(), 0, Init(m)))
    {
      if m in mutexes {
        return EBUSY;
      }
      mutexes := mutexes[m := MutexInfo(false, [], 0)];
      return 0;
    }

    method MutexDestroy(m: nat) returns (r: int)
      modifies this`mutexes
      ensures (View(), r) == old(Result(View(), 0, Destroy(m)))
    {
      if m !in mutexes {
        return EINVAL;
      }
      if mutexes[m].acquired {
        return EBUSY;
      }
      mutexes := mutexes - {m};
      return 0;
    }

    method DoMutexLock(tid: int, m: nat)
      requires m in mutexes
      modifies this`mutexes, this`blockedThreads
      ensures View() == old(Locked(View(), tid, m))
    {
      if mutexes[m].acquired {
        mutexes := mutexes[m := mutexes[m].(waiters := mutexes[m].waiters + [tid])];
        blockedThreads := blockedThreads + {tid};
      } else {
        mutexes := mutexes[m := mutexes[m].(acquired := true, owner := tid)];
      }
    }

    method DoMutexUnlock(m: nat)
      requires m in mutexes
      modifies this`mutexes, this`blockedThreads
      ensures View() == old(Unlocked(View(), m))
    {
      if mutexes[m].waiters != [] {
        var tid := mutexes[m].waiters[0];
        blockedThreads := blockedThreads - {tid};
        mutexes := mutexes[m := mutexes[m].(waiters := mutexes[m].waiters[1..], owner := tid)];
      } else {
        mutexes := mutexes[m := mutexes[m].(acquired := false)];
      }
    }

    method MutexLock(tid: int, m: nat) returns (r: int)
      modifies this`mutexes, this`blockedThreads
      ensures (View(), r) == old(Result(View(), tid, Lock(m)))
    {
      if m !in mutexes {
        return EINVAL;
      }
      if mutexes[m].acquired && mutexes[m].owner == tid {
        return EDEADLK;
      }
      DoMutexLock(tid, m);
      return 0;
    }

    method MutexUnlock(tid: int, m: nat) returns (r: int)
      modifies this`mutexes, this`blockedThreads
      ensures (View(), r) == old(Result(View(), tid, Unlock(m)))
    {
      if m !in mutexes {
        return EINVAL;
      }
      if !mutexes[m].acquired || mutexes[m].owner != tid {
        return EPERM;
      }
      DoMutexUnlock(m);
      return 0;
    }

    method MutexTrylock(tid: int, m: nat) returns (r: int)
      modifies this`mutexes, this`blockedThreads
      ensures (View(), r) == old(Result(View(), tid, Trylock(m)))
    {
      if m !in mutexes {
        return EINVAL;
      }
      if mutexes[m].acquired {
        return EBUSY;
      }
      DoMutexLock(tid, m);
      return 0;
    }
  }

  ghost predicate Scanned(seen: set<int>, last: int, minTid: int, nextTid: int) {
    (if seen == {} then minTid == -1 else minTid in seen && forall t :: t in seen ==> minTid <= t)
    && (if exists t :: t in seen && t > last
        then nextTid in seen && nextTid > last && forall t :: t in seen && t > last ==> nextTid <= t
        else nextTid == -1)
  }
}
