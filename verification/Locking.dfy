/**
 * Concurrent callers of the client cache.
 *
 * Each caller invokes a request, waits for the lock, looks its key up, on a miss
 * builds and stores a client, releases the lock, and returns. A scheduler picks
 * any thread for each small step; a step that cannot be taken does nothing.
 */
module Locking {
  import opened Basics
  import opened Clients
  import opened ClientCache

  type Tid = nat

  datatype Pc =
    | Idle
    | Waiting(call: Call, invoked: nat)
    | Looking(call: Call, invoked: nat, locked: nat)
    | Missed(call: Call, invoked: nat, locked: nat)
    | Made(call: Call, invoked: nat, locked: nat, client: Client)
    | Leaving(call: Call, invoked: nat, locked: nat, result: Result<Client>)
    | Done(call: Call, invoked: nat, locked: nat, result: Result<Client>)

  /** What happened, oldest first; a return names the positions of its invocation and lock. */
  datatype Event =
    | Invoked(tid: Tid, call: Call)
    | Locked(tid: Tid, call: Call)
    | Returned(tid: Tid, call: Call, result: Result<Client>, invoked: nat, locked: nat)

  /** The last component lists, by position in the lock order, the requests that stored a client. */
  datatype Sys = Sys(cache: seq<Entry>, holder: Option<Tid>, pcs: map<Tid, Pc>, trace: seq<Event>, stores: seq<nat>)

  datatype Action = Invoke(call: Call) | Acquire | Lookup | Make | Store | Unlock | Return

  /** Between obtaining the lock and releasing it. */
  predicate InSection(pc: Pc)
  {
    pc.Looking? || pc.Missed? || pc.Made? || pc.Leaving?
  }

  /** One step of thread t. */
  function Apply(k: nat, build: Builder, s: Sys, t: Tid, a: Action): Sys
    requires 0 < k
  {
    if t !in s.pcs then s else
    match (a, s.pcs[t])
    case (Invoke(c), Idle) =>
      s.(pcs := s.pcs[t := Waiting(c, |s.trace|)], trace := s.trace + [Invoked(t, c)])
    case (Acquire, Waiting(c, i)) =>
      if s.holder.Some? then s else
      s.(holder := Some(t), pcs := s.pcs[t := Looking(c, i, |s.trace|)], trace := s.trace + [Locked(t, c)])
    case (Lookup, Looking(c, i, l)) =>
      var p := IndexOf(s.cache, c.key);
      if p < |s.cache|
      then s.(cache := Promote(s.cache, p), pcs := s.pcs[t := Leaving(c, i, l, Ok(s.cache[p].client))])
      else s.(pcs := s.pcs[t := Missed(c, i, l)])
    case (Make, Missed(c, i, l)) =>
      (match Build(build, c)
       case Ok(client) => s.(pcs := s.pcs[t := Made(c, i, l, client)])
       case Err(e) => s.(pcs := s.pcs[t := Leaving(c, i, l, Err(e))]))
    case (Store, Made(c, i, l, client)) =>
      s.(cache := Insert(k, s.cache, Entry(c.key, client)),
         pcs := s.pcs[t := Leaving(c, i, l, Ok(client))],
         stores := s.stores + [LastPosition(Serial(s.trace))])
    case (Unlock, Leaving(c, i, l, r)) =>
      s.(holder := None, pcs := s.pcs[t := Done(c, i, l, r)])
    case (Return, Done(c, i, l, r)) =>
      s.(pcs := s.pcs[t := Idle], trace := s.trace + [Returned(t, c, r, i, l)])
    case _ => s
  }

  function Start(threads: set<Tid>): Sys
  {
    Sys([], None, map t | t in threads :: Idle, [], [])
  }

  /** The state after the scheduler's choices, starting from an empty cache. */
  function Execute(k: nat, build: Builder, threads: set<Tid>, steps: seq<(Tid, Action)>): Sys
    requires 0 < k
  {
    if steps == [] then Start(threads)
    else
      var n := |steps| - 1;
      Apply(k, build, Execute(k, build, threads, steps[..n]), steps[n].0, steps[n].1)
  }

  /** The requests in the order in which they obtained the lock. */
  function Serial(trace: seq<Event>): seq<Call>
  {
    if trace == [] then []
    else
      var n := |trace| - 1;
      Serial(trace[..n]) + if trace[n].Locked? then [trace[n].call] else []
  }

  function LastPosition(h: seq<Call>): nat
  {
    if h == [] then 0 else |h| - 1
  }

  // ----- Invariant -----

  ghost predicate Quiet(trace: seq<Event>, t: Tid, from: nat, to: nat)
  {
    forall m :: from <= m < to && m < |trace| ==> trace[m].tid != t
  }

  /** At i thread t invoked c and at l it got the lock, with nothing else of t up to position n. */
  ghost predicate Holds(trace: seq<Event>, t: Tid, c: Call, i: nat, l: nat, n: nat)
  {
    && i < l < n <= |trace|
    && trace[i] == Invoked(t, c) && trace[l] == Locked(t, c)
    && Quiet(trace, t, i + 1, l) && Quiet(trace, t, l + 1, n)
  }

  /** The reply of the sequential cache to c after the requests locked in this trace. */
  function SerialReply(k: nat, build: Builder, trace: seq<Event>, c: Call): Reply
    requires 0 < k
  {
    Step(k, build, Run(k, build, Serial(trace)), c)
  }

  /**
   * A return is linearised: between its invocation and itself lies its lock, and
   * its result is that of the sequential cache at that point of the lock order.
   */
  ghost predicate Linearised(k: nat, build: Builder, trace: seq<Event>, j: nat)
    requires 0 < k && j < |trace| && trace[j].Returned?
  {
    var e := trace[j];
    && Holds(trace, e.tid, e.call, e.invoked, e.locked, j)
    && e.result == SerialReply(k, build, trace[..e.locked], e.call).result
  }

  ghost predicate AllLinearised(k: nat, build: Builder, trace: seq<Event>)
    requires 0 < k
  {
    forall j: nat :: j < |trace| && trace[j].Returned? ==> Linearised(k, build, trace, j)
  }

  ghost predicate ThreadOk(k: nat, build: Builder, s: Sys, t: Tid)
    requires 0 < k && t in s.pcs
  {
    match s.pcs[t]
    case Idle => s.holder != Some(t)
    case Waiting(c, i) =>
      s.holder != Some(t) && i < |s.trace| && s.trace[i] == Invoked(t, c) && Quiet(s.trace, t, i + 1, |s.trace|)
    case Done(c, i, l, r) =>
      && s.holder != Some(t)
      && Holds(s.trace, t, c, i, l, |s.trace|)
      && r == SerialReply(k, build, s.trace[..l], c).result
    case pc =>
      && s.holder == Some(t)
      && Holds(s.trace, t, pc.call, pc.invoked, pc.locked, |s.trace|)
      && Serial(s.trace) == Serial(s.trace[..pc.locked]) + [pc.call]
      && InSectionOk(k, build, s.cache, s.stores, pc, Serial(s.trace[..pc.locked]))
  }

  /** How far the holder of the lock has got, against the requests before its own. */
  ghost predicate InSectionOk(k: nat, build: Builder, cache: seq<Entry>, stores: seq<nat>, pc: Pc, h: seq<Call>)
    requires 0 < k && InSection(pc)
  {
    var s := Run(k, build, h);
    match pc
    case Looking(c, _, _) => cache == s && stores == CreatedAt(k, build, h)
    case Missed(c, _, _) => cache == s && stores == CreatedAt(k, build, h) && c.key !in Keys(s)
    case Made(c, _, _, client) =>
      cache == s && stores == CreatedAt(k, build, h) && c.key !in Keys(s) && Build(build, c) == Ok(client)
    case Leaving(c, _, _, r) =>
      && Step(k, build, s, c).state == cache && Step(k, build, s, c).result == r
      && stores == CreatedAt(k, build, h + [c])
  }

  /** Cache and stores are those of the sequential run. */
  ghost predicate Settled(k: nat, build: Builder, s: Sys)
    requires 0 < k
  {
    s.cache == Run(k, build, Serial(s.trace)) && s.stores == CreatedAt(k, build, Serial(s.trace))
  }

  ghost predicate Inv(k: nat, build: Builder, s: Sys)
    requires 0 < k
  {
    && (s.holder.Some? ==> s.holder.value in s.pcs)
    && (s.holder.None? ==> Settled(k, build, s))
    && (forall t :: t in s.pcs ==> ThreadOk(k, build, s, t))
    && AllLinearised(k, build, s.trace)
  }

  // ----- Traces only grow -----

  lemma LinearisedStays(k: nat, build: Builder, trace: seq<Event>, e: Event)
    requires 0 < k && AllLinearised(k, build, trace)
    requires e.Returned? ==> Linearised(k, build, trace + [e], |trace|)
    ensures AllLinearised(k, build, trace + [e])
  {
    var more := trace + [e];
    forall j: nat | j < |more| && more[j].Returned?
      ensures Linearised(k, build, more, j)
    {
      if j < |trace| {
        assert Linearised(k, build, trace, j);
        assert more[..trace[j].locked] == trace[..trace[j].locked];
      }
    }
  }

  lemma SerialExtend(trace: seq<Event>, e: Event)
    ensures Serial(trace + [e]) == if e.Locked? then Serial(trace) + [e.call] else Serial(trace)
  {
    assert (trace + [e])[..|trace|] == trace;
    assert Serial(trace) + [] == Serial(trace);
  }

  /** Other threads are untouched by an event that is neither theirs nor a lock while they hold it. */
  lemma OthersStay(k: nat, build: Builder, s: Sys, s': Sys, t: Tid, u: Tid, e: Event)
    requires 0 < k && u in s.pcs && u != t && ThreadOk(k, build, s, u)
    requires u in s'.pcs && s'.pcs[u] == s.pcs[u]
    requires s'.trace == s.trace + [e] && e.tid == t
    requires s.holder == Some(u) ==>
               s'.holder == s.holder && s'.cache == s.cache && s'.stores == s.stores && !e.Locked?
    requires s.holder != Some(u) ==> s'.holder != Some(u)
    ensures ThreadOk(k, build, s', u)
  {
    SerialExtend(s.trace, e);
    if InSection(s.pcs[u]) || s.pcs[u].Done? {
      assert s'.trace[..s.pcs[u].locked] == s.trace[..s.pcs[u].locked];
    }
  }

  // ----- Each step keeps the invariant -----

  lemma InvokeKeeps(k: nat, build: Builder, s: Sys, t: Tid, c: Call)
    requires 0 < k && Inv(k, build, s) && t in s.pcs && s.pcs[t].Idle?
    ensures Inv(k, build, Apply(k, build, s, t, Invoke(c)))
  {
    var s' := Apply(k, build, s, t, Invoke(c));
    var e := Invoked(t, c);
    assert ThreadOk(k, build, s, t);
    SerialExtend(s.trace, e);
    LinearisedStays(k, build, s.trace, e);
    forall u | u in s'.pcs
      ensures ThreadOk(k, build, s', u)
    {
      assert ThreadOk(k, build, s, u);
      if u != t {
        OthersStay(k, build, s, s', t, u, e);
      }
    }
  }

  lemma AcquireKeeps(k: nat, build: Builder, s: Sys, t: Tid)
    requires 0 < k && Inv(k, build, s) && t in s.pcs && s.pcs[t].Waiting? && s.holder.None?
    ensures Inv(k, build, Apply(k, build, s, t, Acquire))
  {
    var s' := Apply(k, build, s, t, Acquire);
    var e := Locked(t, s.pcs[t].call);
    assert ThreadOk(k, build, s, t);
    SerialExtend(s.trace, e);
    LinearisedStays(k, build, s.trace, e);
    assert s'.trace[..|s.trace|] == s.trace;
    forall u | u in s'.pcs
      ensures ThreadOk(k, build, s', u)
    {
      assert ThreadOk(k, build, s, u);
      if u != t {
        OthersStay(k, build, s, s', t, u, e);
      }
    }
  }

  /** A step inside the section moves only the holder, the cache and the stores. */
  lemma SectionStep(k: nat, build: Builder, s: Sys, t: Tid, pc: Pc, cache: seq<Entry>, stores: seq<nat>)
    requires 0 < k && Inv(k, build, s) && t in s.pcs && InSection(s.pcs[t]) && InSection(pc)
    requires pc.call == s.pcs[t].call && pc.invoked == s.pcs[t].invoked && pc.locked == s.pcs[t].locked
    requires pc.locked <= |s.trace| ==> InSectionOk(k, build, cache, stores, pc, Serial(s.trace[..pc.locked]))
    ensures Inv(k, build, s.(cache := cache, stores := stores, pcs := s.pcs[t := pc]))
  {
    var s' := s.(cache := cache, stores := stores, pcs := s.pcs[t := pc]);
    assert ThreadOk(k, build, s, t);
    forall u | u in s'.pcs
      ensures ThreadOk(k, build, s', u)
    {
      assert ThreadOk(k, build, s, u);
    }
  }

  /** The steps inside the section: look up, build, store. */
  lemma SectionKeeps(k: nat, build: Builder, s: Sys, t: Tid, a: Action)
    requires 0 < k && Inv(k, build, s) && t in s.pcs && InSection(s.pcs[t]) && !a.Unlock?
    ensures Inv(k, build, Apply(k, build, s, t, a))
  {
    var s' := Apply(k, build, s, t, a);
    assert ThreadOk(k, build, s, t);
    if s' != s {
      assert s' == s.(cache := s'.cache, stores := s'.stores, pcs := s.pcs[t := s'.pcs[t]]);
      SectionProgress(k, build, s, t, a, Serial(s.trace[..s.pcs[t].locked]));
      SectionStep(k, build, s, t, s'.pcs[t], s'.cache, s'.stores);
    }
  }

  /** Thread t is still in the section with the same request, and as far as its program counter says. */
  ghost predicate OnTrack(k: nat, build: Builder, s: Sys, s': Sys, t: Tid, h: seq<Call>)
    requires 0 < k && t in s.pcs && InSection(s.pcs[t])
  {
    && t in s'.pcs
    && InSection(s'.pcs[t]) && InSectionOk(k, build, s'.cache, s'.stores, s'.pcs[t], h)
    && s'.pcs[t].call == s.pcs[t].call && s'.pcs[t].invoked == s.pcs[t].invoked
    && s'.pcs[t].locked == s.pcs[t].locked
  }

  lemma HitProgress(k: nat, build: Builder, h: seq<Call>, c: Call, i: nat, l: nat, p: nat)
    requires 0 < k && p == IndexOf(Run(k, build, h), c.key) < |Run(k, build, h)|
    ensures var s := Run(k, build, h);
            InSectionOk(k, build, Promote(s, p), CreatedAt(k, build, h), Leaving(c, i, l, Ok(s[p].client)), h)
  {
    CreatedExtend(k, build, h, c);
  }

  lemma FailProgress(k: nat, build: Builder, h: seq<Call>, c: Call, i: nat, l: nat, e: AppError)
    requires 0 < k && c.key !in Keys(Run(k, build, h)) && Build(build, c) == Err(e)
    ensures InSectionOk(k, build, Run(k, build, h), CreatedAt(k, build, h), Leaving(c, i, l, Err(e)), h)
  {
    CreatedExtend(k, build, h, c);
  }

  lemma StoreProgress(k: nat, build: Builder, h: seq<Call>, c: Call, i: nat, l: nat, client: Client)
    requires 0 < k && c.key !in Keys(Run(k, build, h)) && Build(build, c) == Ok(client)
    ensures InSectionOk(k, build, Insert(k, Run(k, build, h), Entry(c.key, client)),
                        CreatedAt(k, build, h) + [LastPosition(h + [c])], Leaving(c, i, l, Ok(client)), h)
  {
    CreatedExtend(k, build, h, c);
    assert LastPosition(h + [c]) == |h|;
  }

  lemma SectionProgress(k: nat, build: Builder, s: Sys, t: Tid, a: Action, h: seq<Call>)
    requires 0 < k && t in s.pcs && InSection(s.pcs[t]) && !a.Unlock?
    requires Serial(s.trace) == h + [s.pcs[t].call]
    requires InSectionOk(k, build, s.cache, s.stores, s.pcs[t], h)
    ensures OnTrack(k, build, s, Apply(k, build, s, t, a), t, h)
  {
    match (a, s.pcs[t])
    case (Lookup, Looking(c, i, l)) =>
      var p := IndexOf(s.cache, c.key);
      if p < |s.cache| {
        HitProgress(k, build, h, c, i, l, p);
      }
    case (Make, Missed(c, i, l)) =>
      if Build(build, c).Err? {
        FailProgress(k, build, h, c, i, l, Build(build, c).error);
      }
    case (Store, Made(c, i, l, client)) =>
      StoreProgress(k, build, h, c, i, l, client);
    case _ =>
  }

  lemma CreatedExtend(k: nat, build: Builder, h: seq<Call>, c: Call)
    requires 0 < k
    ensures CreatedAt(k, build, h + [c]) ==
            if c.key !in Keys(Run(k, build, h)) && Buildable(build, c.key) then CreatedAt(k, build, h) + [|h|]
            else CreatedAt(k, build, h)
  {
    assert (h + [c])[..|h|] == h;
    assert CreatedAt(k, build, h) + [] == CreatedAt(k, build, h);
  }

  lemma ApplyUnlock(k: nat, build: Builder, s: Sys, t: Tid)
    requires 0 < k && t in s.pcs && s.pcs[t].Leaving?
    ensures var pc := s.pcs[t];
            Apply(k, build, s, t, Unlock) ==
            s.(holder := None, pcs := s.pcs[t := Done(pc.call, pc.invoked, pc.locked, pc.result)])
  {
  }

  /** Leaving the section settles the cache. */
  lemma LeavingSettles(k: nat, build: Builder, s: Sys, t: Tid)
    requires 0 < k && t in s.pcs && s.pcs[t].Leaving? && ThreadOk(k, build, s, t)
    ensures Settled(k, build, s)
    ensures var pc := s.pcs[t]; pc.result == SerialReply(k, build, s.trace[..pc.locked], pc.call).result
  {
    var pc := s.pcs[t];
    RunExtend(k, build, Serial(s.trace[..pc.locked]), pc.call);
  }

  lemma UnlockKeeps(k: nat, build: Builder, s: Sys, t: Tid)
    requires 0 < k && Inv(k, build, s) && t in s.pcs && s.pcs[t].Leaving?
    ensures Inv(k, build, Apply(k, build, s, t, Unlock))
  {
    var pc := s.pcs[t];
    var s' := s.(holder := None, pcs := s.pcs[t := Done(pc.call, pc.invoked, pc.locked, pc.result)]);
    ApplyUnlock(k, build, s, t);
    assert ThreadOk(k, build, s, t);
    LeavingSettles(k, build, s, t);
    forall u | u in s'.pcs
      ensures ThreadOk(k, build, s', u)
    {
      assert ThreadOk(k, build, s, u);
    }
  }

  lemma ReturnIsLinearised(k: nat, build: Builder, trace: seq<Event>, e: Event)
    requires 0 < k && e.Returned? && Holds(trace, e.tid, e.call, e.invoked, e.locked, |trace|)
    requires e.result == SerialReply(k, build, trace[..e.locked], e.call).result
    ensures Linearised(k, build, trace + [e], |trace|)
  {
    var more := trace + [e];
    assert more[..e.locked] == trace[..e.locked];
    assert Holds(more, e.tid, e.call, e.invoked, e.locked, |trace|);
  }

  function ReturnEvent(t: Tid, pc: Pc): Event
    requires pc.Done?
  {
    Returned(t, pc.call, pc.result, pc.invoked, pc.locked)
  }

  lemma ApplyReturn(k: nat, build: Builder, s: Sys, t: Tid)
    requires 0 < k && t in s.pcs && s.pcs[t].Done?
    ensures Apply(k, build, s, t, Return) ==
            s.(pcs := s.pcs[t := Idle], trace := s.trace + [ReturnEvent(t, s.pcs[t])])
  {
  }

  lemma TraceAfterReturn(k: nat, build: Builder, s: Sys, t: Tid)
    requires 0 < k && t in s.pcs && s.pcs[t].Done? && ThreadOk(k, build, s, t)
    requires AllLinearised(k, build, s.trace)
    ensures var trace := s.trace + [ReturnEvent(t, s.pcs[t])];
            AllLinearised(k, build, trace) && Serial(trace) == Serial(s.trace)
  {
    var e := ReturnEvent(t, s.pcs[t]);
    SerialExtend(s.trace, e);
    ReturnIsLinearised(k, build, s.trace, e);
    LinearisedStays(k, build, s.trace, e);
  }

  lemma ReturnKeeps(k: nat, build: Builder, s: Sys, t: Tid)
    requires 0 < k && Inv(k, build, s) && t in s.pcs && s.pcs[t].Done?
    ensures Inv(k, build, Apply(k, build, s, t, Return))
  {
    var e := ReturnEvent(t, s.pcs[t]);
    var s' := s.(pcs := s.pcs[t := Idle], trace := s.trace + [e]);
    ApplyReturn(k, build, s, t);
    assert ThreadOk(k, build, s, t);
    TraceAfterReturn(k, build, s, t);
    forall u | u in s'.pcs
      ensures ThreadOk(k, build, s', u)
    {
      assert ThreadOk(k, build, s, u);
      if u != t {
        OthersStay(k, build, s, s', t, u, e);
      }
    }
  }

  lemma RunExtend(k: nat, build: Builder, h: seq<Call>, c: Call)
    requires 0 < k
    ensures Run(k, build, h + [c]) == Step(k, build, Run(k, build, h), c).state
  {
    assert (h + [c])[..|h|] == h;
  }

  lemma {:induction false} ExecuteKeeps(k: nat, build: Builder, threads: set<Tid>, steps: seq<(Tid, Action)>)
    requires 0 < k
    ensures Inv(k, build, Execute(k, build, threads, steps))
  {
    if steps != [] {
      var n := |steps| - 1;
      var s, t, a := Execute(k, build, threads, steps[..n]), steps[n].0, steps[n].1;
      ExecuteKeeps(k, build, threads, steps[..n]);
      if t in s.pcs {
        match (a, s.pcs[t])
        case (Invoke(c), Idle) => InvokeKeeps(k, build, s, t, c);
        case (Acquire, Waiting(_, _)) => if s.holder.None? { AcquireKeeps(k, build, s, t); }
        case (Unlock, Leaving(_, _, _, _)) => UnlockKeeps(k, build, s, t);
        case (Return, Done(_, _, _, _)) => ReturnKeeps(k, build, s, t);
        case _ => if InSection(s.pcs[t]) && !a.Unlock? { SectionKeeps(k, build, s, t, a); }
      }
    }
  }

  // ----- Results -----

  /**
   * Under every schedule: at most one thread is in the section; while none is,
   * cache and stores are those of the sequential run in lock order; at any time
   * the stores are an initial part of the sequential ones; and every return is
   * linearised at its lock.
   */
  lemma EveryScheduleIsSequential(k: nat, build: Builder, threads: set<Tid>, steps: seq<(Tid, Action)>)
    requires 0 < k
    ensures var s := Execute(k, build, threads, steps);
            && (forall t, u :: t in s.pcs && u in s.pcs && InSection(s.pcs[t]) && InSection(s.pcs[u]) ==> t == u)
            && ((forall t :: t in s.pcs ==> !InSection(s.pcs[t])) ==> Settled(k, build, s))
            && s.stores <= CreatedAt(k, build, Serial(s.trace))
            && AllLinearised(k, build, s.trace)
  {
    ExecuteKeeps(k, build, threads, steps);
    InvGives(k, build, Execute(k, build, threads, steps));
  }

  lemma InvGives(k: nat, build: Builder, s: Sys)
    requires 0 < k && Inv(k, build, s)
    ensures forall t, u :: t in s.pcs && u in s.pcs && InSection(s.pcs[t]) && InSection(s.pcs[u]) ==> t == u
    ensures (forall t :: t in s.pcs ==> !InSection(s.pcs[t])) ==> Settled(k, build, s)
    ensures s.stores <= CreatedAt(k, build, Serial(s.trace))
  {
    forall t | t in s.pcs
      ensures InSection(s.pcs[t]) <==> s.holder == Some(t)
    {
      OnlyHolderInside(k, build, s, t);
    }
    if s.holder.Some? {
      assert ThreadOk(k, build, s, s.holder.value);
      StoresAreInitial(k, build, s, s.holder.value);
    }
  }

  lemma OnlyHolderInside(k: nat, build: Builder, s: Sys, t: Tid)
    requires 0 < k && Inv(k, build, s) && t in s.pcs
    ensures InSection(s.pcs[t]) <==> s.holder == Some(t)
  {
    assert ThreadOk(k, build, s, t);
  }

  lemma StoresAreInitial(k: nat, build: Builder, s: Sys, t: Tid)
    requires 0 < k && t in s.pcs && ThreadOk(k, build, s, t) && s.holder == Some(t)
    ensures s.stores <= CreatedAt(k, build, Serial(s.trace))
  {
    CreatedExtend(k, build, Serial(s.trace[..s.pcs[t].locked]), s.pcs[t].call);
  }

  /**
   * Under every schedule each request stores at most once, in lock order, and
   * between two stores for one key an entry for that key was evicted.
   */
  lemma StoresAreSeparated(k: nat, build: Builder, threads: set<Tid>, steps: seq<(Tid, Action)>, a: nat, b: nat)
    requires 0 < k && a < b < |Execute(k, build, threads, steps).stores|
    ensures var s := Execute(k, build, threads, steps);
            var h := Serial(s.trace);
            && s.stores[a] < s.stores[b] < |h|
            && Creates(k, build, h, s.stores[a]) && Creates(k, build, h, s.stores[b])
            && (h[s.stores[a]].key == h[s.stores[b]].key ==>
                  exists e: nat :: s.stores[a] < e < s.stores[b] && EvictedBy(k, build, h, h[s.stores[a]].key, e))
  {
    EveryScheduleIsSequential(k, build, threads, steps);
    var s := Execute(k, build, threads, steps);
    StoresSeparated(k, build, Serial(s.trace), s.stores, a, b);
  }

  lemma StoresSeparated(k: nat, build: Builder, h: seq<Call>, stores: seq<nat>, a: nat, b: nat)
    requires 0 < k && a < b < |stores| && stores <= CreatedAt(k, build, h)
    ensures stores[a] < stores[b] < |h| && Creates(k, build, h, stores[a]) && Creates(k, build, h, stores[b])
    ensures h[stores[a]].key == h[stores[b]].key ==>
              exists e: nat :: stores[a] < e < stores[b] && EvictedBy(k, build, h, h[stores[a]].key, e)
  {
    var all := CreatedAt(k, build, h);
    assert stores[a] == all[a] && stores[b] == all[b];
    CreatedAtAscends(k, build, h);
    CreatedAtIff(k, build, h, all[a]);
    CreatedAtIff(k, build, h, all[b]);
    if h[stores[a]].key == h[stores[b]].key {
      RebuiltOnlyAfterEviction(k, build, h, stores[a], stores[b]);
    }
  }

  lemma {:induction false} SerialGrows(trace: seq<Event>, l: nat, m: nat)
    requires l <= m <= |trace|
    ensures Serial(trace[..l]) <= Serial(trace[..m])
    decreases m
  {
    if l < m {
      assert trace[..m][..m - 1] == trace[..m - 1];
      SerialGrows(trace, l, m - 1);
    }
  }

  /** The requests locked before a call and the call itself. */
  ghost predicate Precedes(trace: seq<Event>, i: nat, j: nat)
    requires i < |trace| && j < |trace| && trace[i].Returned? && trace[j].Returned?
  {
    && trace[i].locked < |trace| && trace[j].locked < |trace|
    && Serial(trace[..trace[i].locked]) + [trace[i].call] <= Serial(trace[..trace[j].locked])
  }

  lemma LinearisedPrecedes(k: nat, build: Builder, trace: seq<Event>, i: nat, j: nat)
    requires 0 < k && AllLinearised(k, build, trace)
    requires i < |trace| && j < |trace| && trace[i].Returned? && trace[j].Returned? && i < trace[j].invoked
    ensures Precedes(trace, i, j)
  {
    assert Linearised(k, build, trace, i) && Linearised(k, build, trace, j);
    LockPrecedes(trace, trace[i].locked, trace[j].locked);
  }

  lemma LockPrecedes(trace: seq<Event>, l: nat, m: nat)
    requires l < m <= |trace| && trace[l].Locked?
    ensures Serial(trace[..l]) + [trace[l].call] <= Serial(trace[..m])
  {
    assert trace[..l + 1] == trace[..l] + [trace[l]];
    SerialExtend(trace[..l], trace[l]);
    SerialGrows(trace, l + 1, m);
  }

  /** Lock order respects real time: a call that returned before another was invoked precedes it. */
  lemma RealTimeOrder(k: nat, build: Builder, threads: set<Tid>, steps: seq<(Tid, Action)>, i: nat, j: nat)
    requires 0 < k
    requires var trace := Execute(k, build, threads, steps).trace;
             i < |trace| && j < |trace| && trace[i].Returned? && trace[j].Returned? && i < trace[j].invoked
    ensures Precedes(Execute(k, build, threads, steps).trace, i, j)
  {
    EveryScheduleIsSequential(k, build, threads, steps);
    LinearisedPrecedes(k, build, Execute(k, build, threads, steps).trace, i, j);
  }

  /** Concurrency is invisible to callers: each gets the client or error that its address and token call for. */
  lemma ReturnsAreFresh(k: nat, build: Builder, threads: set<Tid>, steps: seq<(Tid, Action)>, j: nat)
    requires 0 < k
    requires var trace := Execute(k, build, threads, steps).trace; j < |trace| && trace[j].Returned?
    ensures var e := Execute(k, build, threads, steps).trace[j];
            Serves(build, e.call, e.result)
  {
    EveryScheduleIsSequential(k, build, threads, steps);
    var trace := Execute(k, build, threads, steps).trace;
    assert Linearised(k, build, trace, j);
    var h, c := Serial(trace[..trace[j].locked]), trace[j].call;
    assert (h + [c])[..|h|] == h;
    Transparent(k, build, h + [c], |h|);
  }
}
