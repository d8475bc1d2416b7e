/** A thread that is scheduled gets its answer: what the lock protocol never blocks. */
module LockProgress {
  import opened Basics
  import opened Clients
  import opened ClientCache
  import opened Locking

  type Steps = seq<(Tid, Action)>

  /** What is left to do for a thread in the section; steps it has behind it or can skip do nothing. */
  function Finish(t: Tid): Steps
  {
    [(t, Lookup), (t, Make), (t, Store), (t, Unlock), (t, Return)]
  }

  /** How many of the steps inside the section a thread has behind it. */
  function Phase(pc: Pc): nat
    requires InSection(pc)
  {
    match pc
    case Looking(_, _, _) => 0
    case Missed(_, _, _) => 1
    case Made(_, _, _, _) => 2
    case Leaving(_, _, _, _) => 3
  }

  lemma After(k: nat, build: Builder, threads: set<Tid>, steps: Steps, t: Tid, a: Action)
    requires 0 < k
    ensures Execute(k, build, threads, steps + [(t, a)]) == Apply(k, build, Execute(k, build, threads, steps), t, a)
  {
    assert (steps + [(t, a)])[..|steps|] == steps;
  }

  /** Thread t went on inside the section with its request; the other threads are where they were. */
  ghost predicate Moved(s: Sys, s': Sys, t: Tid)
  {
    && t in s.pcs && InSection(s.pcs[t]) && t in s'.pcs && InSection(s'.pcs[t])
    && s'.pcs == s.pcs[t := s'.pcs[t]] && s'.trace == s.trace
    && s'.pcs[t].call == s.pcs[t].call
    && s'.pcs[t].invoked == s.pcs[t].invoked && s'.pcs[t].locked == s.pcs[t].locked
  }

  lemma MovedTwice(s: Sys, s': Sys, s'': Sys, t: Tid)
    requires Moved(s, s', t) && Moved(s', s'', t)
    ensures Moved(s, s'', t)
  {
    assert s''.pcs == s.pcs[t := s'.pcs[t]][t := s''.pcs[t]];
  }

  /** Inside the section each step takes a thread past its own phase. */
  lemma SectionAdvances(k: nat, build: Builder, s: Sys, t: Tid, a: Action)
    requires 0 < k && t in s.pcs && InSection(s.pcs[t]) && (a.Lookup? || a.Make? || a.Store?)
    requires Phase(s.pcs[t]) >= if a.Lookup? then 0 else if a.Make? then 1 else 2
    ensures var s' := Apply(k, build, s, t, a);
            Moved(s, s', t) && Phase(s'.pcs[t]) >= if a.Lookup? then 1 else if a.Make? then 2 else 3
  {
  }

  function AfterSection(k: nat, build: Builder, s: Sys, t: Tid): Sys
    requires 0 < k
  {
    Apply(k, build, Apply(k, build, Apply(k, build, s, t, Lookup), t, Make), t, Store)
  }

  function AfterFinish(k: nat, build: Builder, s: Sys, t: Tid): Sys
    requires 0 < k
  {
    Apply(k, build, Apply(k, build, AfterSection(k, build, s, t), t, Unlock), t, Return)
  }

  lemma SectionGoes(k: nat, build: Builder, s: Sys, s': Sys, t: Tid, a: Action)
    requires 0 < k && Inv(k, build, s) && t in s.pcs && InSection(s.pcs[t]) && (a.Lookup? || a.Make? || a.Store?)
    requires Phase(s.pcs[t]) >= if a.Lookup? then 0 else if a.Make? then 1 else 2
    requires s' == Apply(k, build, s, t, a)
    ensures Inv(k, build, s') && Moved(s, s', t)
    ensures Phase(s'.pcs[t]) >= if a.Lookup? then 1 else if a.Make? then 2 else 3
  {
    SectionAdvances(k, build, s, t, a);
    SectionKeeps(k, build, s, t, a);
  }

  lemma SectionGoesThrice(k: nat, build: Builder, s: Sys, s1: Sys, s2: Sys, s3: Sys, t: Tid)
    requires 0 < k && Inv(k, build, s) && t in s.pcs && InSection(s.pcs[t])
    requires s1 == Apply(k, build, s, t, Lookup) && s2 == Apply(k, build, s1, t, Make)
    requires s3 == Apply(k, build, s2, t, Store)
    ensures Inv(k, build, s3) && Moved(s, s3, t) && s3.pcs[t].Leaving?
  {
    SectionGoes(k, build, s, s1, t, Lookup);
    SectionGoes(k, build, s1, s2, t, Make);
    MovedTwice(s, s1, s2, t);
    SectionGoes(k, build, s2, s3, t, Store);
    MovedTwice(s, s2, s3, t);
  }

  /** The three steps inside the section, in order, leave the thread ready to release the lock. */
  lemma SectionDone(k: nat, build: Builder, s: Sys, t: Tid)
    requires 0 < k && Inv(k, build, s) && t in s.pcs && InSection(s.pcs[t])
    ensures var s' := AfterSection(k, build, s, t);
            Inv(k, build, s') && Moved(s, s', t) && s'.pcs[t].Leaving?
  {
    var s1 := Apply(k, build, s, t, Lookup);
    var s2 := Apply(k, build, s1, t, Make);
    SectionGoesThrice(k, build, s, s1, s2, Apply(k, build, s2, t, Store), t);
  }

  /** The holder is about to leave with the sequential answer, the sequential cache behind it. */
  ghost predicate LeavesWith(k: nat, build: Builder, s: Sys, pc: Pc)
    requires 0 < k && pc.Leaving?
  {
    && pc.locked <= |s.trace|
    && var reply := SerialReply(k, build, s.trace[..pc.locked], pc.call);
    && pc.result == reply.result && s.cache == reply.state
    && s.stores == CreatedAt(k, build, Serial(s.trace))
  }

  lemma LeavingOf(k: nat, build: Builder, s: Sys, t: Tid)
    requires 0 < k && Inv(k, build, s) && t in s.pcs && s.pcs[t].Leaving?
    ensures LeavesWith(k, build, s, s.pcs[t])
  {
    assert ThreadOk(k, build, s, t);
    LeavingSettles(k, build, s, t);
  }

  /** The state once the holder t of the lock has returned. */
  ghost function Returning(k: nat, build: Builder, s: Sys, t: Tid): Sys
    requires 0 < k && t in s.pcs && InSection(s.pcs[t]) && s.pcs[t].locked <= |s.trace|
  {
    var pc := s.pcs[t];
    var reply := SerialReply(k, build, s.trace[..pc.locked], pc.call);
    Sys(reply.state, None, s.pcs[t := Idle],
        s.trace + [Returned(t, pc.call, reply.result, pc.invoked, pc.locked)],
        CreatedAt(k, build, Serial(s.trace)))
  }

  lemma ReturningIs(k: nat, build: Builder, s: Sys, t: Tid, pcs: map<Tid, Pc>)
    requires 0 < k && t in s.pcs && s.pcs[t].Leaving? && LeavesWith(k, build, s, s.pcs[t])
    requires pcs == s.pcs[t := Idle]
    ensures var pc := s.pcs[t];
            Sys(s.cache, None, pcs, s.trace + [Returned(t, pc.call, pc.result, pc.invoked, pc.locked)], s.stores) ==
            Returning(k, build, s, t)
  {
  }

  lemma Released(k: nat, build: Builder, s: Sys, s': Sys, t: Tid)
    requires 0 < k && t in s.pcs && s.pcs[t].Leaving? && LeavesWith(k, build, s, s.pcs[t])
    requires s' == Apply(k, build, s, t, Unlock)
    ensures Apply(k, build, s', t, Return) == Returning(k, build, s, t)
  {
    ApplyUnlock(k, build, s, t);
    ApplyReturn(k, build, s', t);
    ReturningIs(k, build, s, t, s'.pcs[t := Idle]);
  }

  lemma ReturningMoved(k: nat, build: Builder, s: Sys, s': Sys, t: Tid)
    requires 0 < k && Moved(s, s', t) && s'.pcs[t].locked <= |s'.trace|
    ensures Returning(k, build, s', t) == Returning(k, build, s, t)
  {
    assert s'.pcs[t := Idle] == s.pcs[t := Idle];
  }

  lemma FinishReturns(k: nat, build: Builder, s: Sys, t: Tid)
    requires 0 < k && Inv(k, build, s) && t in s.pcs && InSection(s.pcs[t])
    ensures s.pcs[t].locked <= |s.trace|
    ensures AfterFinish(k, build, s, t) == Returning(k, build, s, t)
  {
    var s' := AfterSection(k, build, s, t);
    SectionDone(k, build, s, t);
    FinishFrom(k, build, s, s', t);
  }

  lemma FinishFrom(k: nat, build: Builder, s: Sys, s': Sys, t: Tid)
    requires 0 < k && Inv(k, build, s') && Moved(s, s', t) && s'.pcs[t].Leaving?
    ensures s.pcs[t].locked <= |s.trace|
    ensures Apply(k, build, Apply(k, build, s', t, Unlock), t, Return) == Returning(k, build, s, t)
  {
    LeavingOf(k, build, s', t);
    Released(k, build, s', Apply(k, build, s', t, Unlock), t);
    ReturningMoved(k, build, s, s', t);
  }

  lemma FinishRuns(k: nat, build: Builder, threads: set<Tid>, steps: Steps, t: Tid)
    requires 0 < k
    ensures Execute(k, build, threads, steps + Finish(t)) == AfterFinish(k, build, Execute(k, build, threads, steps), t)
  {
    var q1 := steps + [(t, Lookup)];
    var q2 := q1 + [(t, Make)];
    var q3 := q2 + [(t, Store)];
    var q4 := q3 + [(t, Unlock)];
    After(k, build, threads, steps, t, Lookup);
    After(k, build, threads, q1, t, Make);
    After(k, build, threads, q2, t, Store);
    After(k, build, threads, q3, t, Unlock);
    After(k, build, threads, q4, t, Return);
    assert q4 + [(t, Return)] == steps + Finish(t);
  }

  /**
   * A thread that holds the lock, wherever it is in the section, is never
   * blocked: its remaining steps return what the sequential cache answers at its
   * lock, leave the sequential cache behind and free the lock.
   */
  lemma HolderFinishes(k: nat, build: Builder, threads: set<Tid>, steps: Steps, t: Tid)
    requires 0 < k
    requires var s := Execute(k, build, threads, steps); t in s.pcs && InSection(s.pcs[t])
    ensures var s := Execute(k, build, threads, steps);
            && s.pcs[t].locked <= |s.trace|
            && Execute(k, build, threads, steps + Finish(t)) == Returning(k, build, s, t)
  {
    ExecuteKeeps(k, build, threads, steps);
    FinishReturns(k, build, Execute(k, build, threads, steps), t);
    FinishRuns(k, build, threads, steps, t);
  }

  /** No thread is between obtaining the lock and releasing it. */
  ghost predicate Free(s: Sys)
  {
    forall u :: u in s.pcs ==> !InSection(s.pcs[u])
  }

  lemma FreeIff(k: nat, build: Builder, s: Sys)
    requires 0 < k && Inv(k, build, s)
    ensures Free(s) <==> s.holder.None?
  {
    forall u | u in s.pcs
      ensures InSection(s.pcs[u]) <==> s.holder == Some(u)
    {
      OnlyHolderInside(k, build, s, u);
    }
    if s.holder.Some? {
      assert InSection(s.pcs[s.holder.value]);
    }
  }

  /** A waiting thread that is scheduled while the lock is free is in the section at once. */
  lemma AcquireTakesLock(k: nat, build: Builder, threads: set<Tid>, steps: Steps, t: Tid)
    requires 0 < k
    requires var s := Execute(k, build, threads, steps); Free(s) && t in s.pcs && s.pcs[t].Waiting?
    ensures var s := Execute(k, build, threads, steps);
            var c := s.pcs[t].call;
            Execute(k, build, threads, steps + [(t, Acquire)]) ==
            Sys(Run(k, build, Serial(s.trace)), Some(t), s.pcs[t := Looking(c, s.pcs[t].invoked, |s.trace|)],
                s.trace + [Locked(t, c)], CreatedAt(k, build, Serial(s.trace)))
  {
    var s := Execute(k, build, threads, steps);
    ExecuteKeeps(k, build, threads, steps);
    FreeIff(k, build, s);
    After(k, build, threads, steps, t, Acquire);
  }

  /** The state once a waiting thread t has been served: the sequential answer, the sequential cache, a free lock. */
  ghost function Served(k: nat, build: Builder, s: Sys, t: Tid): Sys
    requires 0 < k && t in s.pcs && s.pcs[t].Waiting?
  {
    var c, h := s.pcs[t].call, Serial(s.trace);
    var reply := Step(k, build, Run(k, build, h), c);
    Sys(reply.state, None, s.pcs[t := Idle],
        s.trace + [Locked(t, c), Returned(t, c, reply.result, s.pcs[t].invoked, |s.trace|)],
        CreatedAt(k, build, h + [c]))
  }

  lemma LockedThenReturned(k: nat, build: Builder, s: Sys, s': Sys, t: Tid)
    requires 0 < k && t in s.pcs && s.pcs[t].Waiting?
    requires var c := s.pcs[t].call;
             && s'.pcs == s.pcs[t := Looking(c, s.pcs[t].invoked, |s.trace|)]
             && s'.trace == s.trace + [Locked(t, c)]
    ensures Returning(k, build, s', t) == Served(k, build, s, t)
  {
    var c, i := s.pcs[t].call, s.pcs[t].invoked;
    SerialExtend(s.trace, Locked(t, c));
    OneThenOther(s.pcs, s.trace, t, Locked(t, c), Looking(c, i, |s.trace|), Idle,
                 Returned(t, c, SerialReply(k, build, s.trace, c).result, i, |s.trace|));
  }

  /**
   * From every reachable state in which the lock is free, a waiting thread that
   * takes its steps gets the answer of the sequential cache to its request after
   * the requests locked so far. On a hit building and storing do nothing, and on
   * a failed build storing does nothing.
   */
  lemma WaiterServed(k: nat, build: Builder, threads: set<Tid>, steps: Steps, t: Tid)
    requires 0 < k
    requires var s := Execute(k, build, threads, steps); Free(s) && t in s.pcs && s.pcs[t].Waiting?
    ensures Execute(k, build, threads,
                    steps + [(t, Acquire), (t, Lookup), (t, Make), (t, Store), (t, Unlock), (t, Return)]) ==
            Served(k, build, Execute(k, build, threads, steps), t)
  {
    var s := Execute(k, build, threads, steps);
    AcquireTakesLock(k, build, threads, steps, t);
    var s' := Execute(k, build, threads, steps + [(t, Acquire)]);
    LockedThenReturned(k, build, s, s', t);
    HolderFinishes(k, build, threads, steps + [(t, Acquire)], t);
    AcquireFirst(steps, t);
  }

  lemma AcquireFirst(steps: Steps, t: Tid)
    ensures steps + [(t, Acquire)] + Finish(t) ==
            steps + [(t, Acquire), (t, Lookup), (t, Make), (t, Store), (t, Unlock), (t, Return)]
  {
  }

  lemma OneThenOther<E, P>(pcs: map<Tid, P>, trace: seq<E>, t: Tid, e: E, p: P, q: P, r: E)
    ensures (trace + [e])[..|trace|] == trace
    ensures trace + [e] + [r] == trace + [e, r] && pcs[t := p][t := q] == pcs[t := q]
  {
  }

  /** A call of an idle thread is recorded and waits for the lock. */
  lemma InvokeWaits(k: nat, build: Builder, threads: set<Tid>, steps: Steps, t: Tid, c: Call)
    requires 0 < k
    requires var s := Execute(k, build, threads, steps); t in s.pcs && s.pcs[t].Idle?
    ensures var s := Execute(k, build, threads, steps);
            Execute(k, build, threads, steps + [(t, Invoke(c))]) ==
            s.(pcs := s.pcs[t := Waiting(c, |s.trace|)], trace := s.trace + [Invoked(t, c)])
  {
    After(k, build, threads, steps, t, Invoke(c));
  }

  // ----- No deadlock -----

  ghost function Busy(s: Sys): set<Tid>
  {
    set t | t in s.pcs && !s.pcs[t].Idle?
  }

  /** Steps after which t is idle, the lock is free and the other threads are where they were. */
  lemma OneBecomesIdle(k: nat, build: Builder, threads: set<Tid>, steps: Steps, t: Tid) returns (more: Steps)
    requires 0 < k
    requires var s := Execute(k, build, threads, steps);
             t in s.pcs && !s.pcs[t].Idle? && (InSection(s.pcs[t]) || Free(s))
    ensures var s := Execute(k, build, threads, steps);
            var s' := Execute(k, build, threads, steps + more);
            s'.pcs == s.pcs[t := Idle] && Free(s')
  {
    var s := Execute(k, build, threads, steps);
    if InSection(s.pcs[t]) {
      more := Finish(t);
      HolderFinishes(k, build, threads, steps, t);
    } else if s.pcs[t].Waiting? {
      more := [(t, Acquire), (t, Lookup), (t, Make), (t, Store), (t, Unlock), (t, Return)];
      WaiterServed(k, build, threads, steps, t);
    } else {
      more := [(t, Return)];
      After(k, build, threads, steps, t, Return);
      ApplyReturn(k, build, s, t);
    }
    ExecuteKeeps(k, build, threads, steps);
    ExecuteKeeps(k, build, threads, steps + more);
    FreeIff(k, build, s);
    FreeIff(k, build, Execute(k, build, threads, steps + more));
  }

  /** While some thread is busy, one of them can go on. */
  lemma SomeoneCanGo(k: nat, build: Builder, s: Sys) returns (t: Tid)
    requires 0 < k && Inv(k, build, s) && Busy(s) != {}
    ensures t in Busy(s) && (InSection(s.pcs[t]) || Free(s))
  {
    FreeIff(k, build, s);
    if Free(s) {
      t :| t in Busy(s);
    } else {
      t :| t in s.pcs && InSection(s.pcs[t]);
    }
  }

  lemma FewerBusy(k: nat, build: Builder, threads: set<Tid>, steps: Steps) returns (more: Steps)
    requires 0 < k && Busy(Execute(k, build, threads, steps)) != {}
    ensures |Busy(Execute(k, build, threads, steps + more))| < |Busy(Execute(k, build, threads, steps))|
  {
    var s := Execute(k, build, threads, steps);
    ExecuteKeeps(k, build, threads, steps);
    var t := SomeoneCanGo(k, build, s);
    more := OneBecomesIdle(k, build, threads, steps, t);
    OneLess(s, Execute(k, build, threads, steps + more), t);
  }

  lemma {:induction false} BusyToNone(k: nat, build: Builder, threads: set<Tid>, steps: Steps, n: nat) returns (more: Steps)
    requires 0 < k && |Busy(Execute(k, build, threads, steps))| <= n
    ensures Busy(Execute(k, build, threads, steps + more)) == {}
    decreases n
  {
    if Busy(Execute(k, build, threads, steps)) == {} {
      more := [];
      assert steps + more == steps;
    } else {
      var first := FewerBusy(k, build, threads, steps);
      var rest := BusyToNone(k, build, threads, steps + first, n - 1);
      more := first + rest;
      assert steps + more == steps + first + rest;
    }
  }

  /** No schedule deadlocks: whatever happened, the threads can all be led to the end of their calls. */
  lemma AllCanReturn(k: nat, build: Builder, threads: set<Tid>, steps: Steps) returns (more: Steps)
    requires 0 < k
    ensures var s := Execute(k, build, threads, steps + more);
            && s.pcs.Keys == threads && (forall t :: t in s.pcs ==> s.pcs[t].Idle?)
            && s.holder.None? && Settled(k, build, s)
  {
    more := BusyToNone(k, build, threads, steps, |Busy(Execute(k, build, threads, steps))|);
    ThreadsStay(k, build, threads, steps + more);
    ExecuteKeeps(k, build, threads, steps + more);
    AllIdle(k, build, Execute(k, build, threads, steps + more));
  }

  lemma OneLess(s: Sys, s': Sys, t: Tid)
    requires t in Busy(s) && s'.pcs == s.pcs[t := Idle]
    ensures |Busy(s')| < |Busy(s)|
  {
    assert Busy(s') == Busy(s) - {t};
  }

  lemma AllIdle(k: nat, build: Builder, s: Sys)
    requires 0 < k && Inv(k, build, s) && Busy(s) == {}
    ensures (forall t :: t in s.pcs ==> s.pcs[t].Idle?) && s.holder.None? && Settled(k, build, s)
  {
    forall t | t in s.pcs
      ensures s.pcs[t].Idle?
    {
      assert t !in Busy(s);
    }
    FreeIff(k, build, s);
  }

  lemma {:induction false} ThreadsStay(k: nat, build: Builder, threads: set<Tid>, steps: Steps)
    requires 0 < k
    ensures Execute(k, build, threads, steps).pcs.Keys == threads
  {
    if steps != [] {
      ThreadsStay(k, build, threads, steps[..|steps| - 1]);
    }
  }
}
