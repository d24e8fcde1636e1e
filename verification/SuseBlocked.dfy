/** When blocked_queue holds exactly the BLOCKED threads. */
module SuseBlocked {
  import opened Sequences
  import opened SuseRecords
  import opened SuseState
  import opened SuseRuns

  /** blocked_queue lists the BLOCKED threads of the system, each once. */
  ghost predicate Exact(s: Sys) {
    Enumerates(s.blockedQueue, s.All(Blocked))
  }

  lemma SameBlocked(s: Sys, r: Sys)
    requires r.blockedQueue == s.blockedQueue
    requires forall t :: t in s.threads && s.threads[t].st == Blocked ==> t in r.threads && r.threads[t].st == Blocked
    requires forall t :: t in r.threads && r.threads[t].st == Blocked ==> t in s.threads && s.threads[t].st == Blocked
    ensures Exact(r) <==> Exact(s)
  {
    assert r.All(Blocked) == s.All(Blocked);
  }

  /** Only `t` moves, and neither from nor to BLOCKED. */
  lemma OneMoved(s: Sys, r: Sys, t: Thread)
    requires r.blockedQueue == s.blockedQueue && t in r.threads && r.threads == s.threads[t := r.threads[t]]
    requires r.threads[t].st != Blocked && (t in s.threads ==> s.threads[t].st != Blocked)
    ensures Exact(r) <==> Exact(s)
  {
    SameBlocked(s, r);
  }

  lemma BlocksOne(s: Sys, r: Sys, t: Thread)
    requires Exact(s) && t in s.threads && s.threads[t].st != Blocked
    requires r.threads.Keys == s.threads.Keys && r.threads[t].st == Blocked && r.blockedQueue == s.blockedQueue + [t]
    requires forall u :: u in s.threads && u != t ==> r.threads[u].st == s.threads[u].st
    ensures Exact(r)
  {
    AppendEnumerates(s.blockedQueue, s.All(Blocked), t);
    assert r.All(Blocked) == s.All(Blocked) + {t};
  }

  lemma ReleasesOne(s: Sys, r: Sys, t: Thread)
    requires Exact(s) && s.Names() && t in s.threads && s.threads[t].st == Blocked
    requires r.threads.Keys == s.threads.Keys && r.threads[t].st != Blocked
             && r.blockedQueue == DropThread(s.blockedQueue, t)
    requires forall u :: u in s.threads && u != t ==> r.threads[u].st == s.threads[u].st
    ensures Exact(r)
  {
    forall i | 0 <= i < |s.blockedQueue| ensures s.blockedQueue[i] in s.All(Blocked) {
    }
    DropEnumerates(s.blockedQueue, s.All(Blocked), t);
    assert r.All(Blocked) == s.All(Blocked) - {t};
  }

  /** A thread that is listed without being BLOCKED. */
  lemma Stale(s: Sys, t: Thread)
    requires t in s.blockedQueue && t in s.threads && s.threads[t].st != Blocked
    ensures !Exact(s)
  {
    var i :| 0 <= i < |s.blockedQueue| && s.blockedQueue[i] == t;
    assert Exact(s) ==> s.blockedQueue[i] in s.All(Blocked);
  }

  // ---- closing ----

  lemma UnjoinExact(s: Sys, u: Thread, t: Thread, p: Process)
    requires Exact(s) && s.Names() && t in s.threads && p in s.procs && s.threads[t].joinTo == [u]
             && s.threads[t].st == Blocked && s.Admits()
    ensures Exact(s.Unjoin(u, t, p))
  {
    s.UnjoinIs(u, t, p);
    var r := s.Unjoin(u, t, p);
    ReleasesOne(s, r, t);
  }

  lemma UnjoinLists(s: Sys, u: Thread, t: Thread, p: Process)
    requires t in s.threads && p in s.procs && s.threads[t].joinTo == [u] && !s.Admits()
    ensures s.Unjoin(u, t, p).blockedQueue == s.blockedQueue
  {
    s.UnjoinIs(u, t, p);
  }

  lemma {:induction false} UnjoinAllExact(s: Sys, u: Thread, js: seq<Thread>, p: Process)
    requires s.Core() && s.Semaphores() && s.JoinsBy(u, js) && u in s.threads && s.threads[u].st in {Ready, Executing}
    requires p in s.procs && p.id == u.procesoId
    ensures forall i :: 0 <= i < |js| ==> js[i] in s.threads
    ensures s.Admits() && Exact(s) ==> Exact(s.UnjoinAll(u, js, p))
    ensures !s.Admits() ==> s.UnjoinAll(u, js, p).blockedQueue == s.blockedQueue
    decreases |js|
  {
    hide *;
    s.UnjoinAllKeeps(u, js, p);
    s.UnjoinAll(u, js, p).ReleasedFacts(s, js, if s.Admits() then Ready else New);
    s.UnjoinAllHead(u, js, p);
    if js != [] {
      assert js == [js[0]] + js[1..];
      var t, rest := js[0], js[1..];
      s.JoinerFacts(u, t, rest);
      s.UnjoinKeeps(u, t, p, rest);
      AdmitsSame(s, s.Unjoin(u, t, p));
      s.CoreIs();
      if s.Admits() {
        if Exact(s) {
          UnjoinExact(s, u, t, p);
        }
      } else {
        UnjoinLists(s, u, t, p);
      }
      UnjoinAllExact(s.Unjoin(u, t, p), u, rest, p);
    }
  }

  lemma AdmitsSame(s: Sys, r: Sys)
    requires r.actual == s.actual && r.limit == s.limit
    ensures r.Admits() <==> s.Admits()
  {
  }

  lemma EndedLists(s: Sys, t: Thread, p: Process)
    requires t in s.threads && s.threads[t].st in {Ready, Executing} && p in s.procs
    ensures s.Ended(t, p).blockedQueue == s.blockedQueue && (Exact(s.Ended(t, p)) <==> Exact(s))
  {
    s.EndedIs(t, p);
    OneMoved(s, s.Ended(t, p), t);
  }

  /** Closing a thread keeps blocked_queue exact if and only if there was a place to spare in
      the multiprogramming degree or nobody had joined the thread. */
  lemma LeavingExactIff(s: Sys, t: Thread, p: Process)
    requires s.Inv() && Exact(s) && t in s.threads && s.threads[t].st in {Ready, Executing} && p in s.procs
             && p.id == t.procesoId
    ensures forall i :: 0 <= i < |s.threads[t].joinedBy| ==> s.threads[t].joinedBy[i] in s.threads
    ensures Exact(s.Leaving(t, p)) <==> s.Admits() || s.threads[t].joinedBy == []
  {
    hide *;
    s.InvIs();
    s.JoinsFrom(t);
    s.NotOwnJoiner(t);
    var js := s.threads[t].joinedBy;
    UnjoinAllExact(s, t, js, p);
    s.UnjoinAllKeeps(t, js, p);
    s.UnjoinAll(t, js, p).ReleasedFacts(s, js, if s.Admits() then Ready else New);
    s.LeavingIs(t, p);
    var a := s.UnjoinAll(t, js, p);
    EndedLists(a, t, p);
    if js == [] {
      NoneUnjoined(s, t, p);
    } else if !s.Admits() {
      ListedBlocked(s, js[0]);
      Stale(a, js[0]);
    }
  }

  lemma NoneUnjoined(s: Sys, t: Thread, p: Process)
    requires p in s.procs
    ensures s.UnjoinAll(t, [], p) == s
  {
  }

  lemma ListedBlocked(s: Sys, t: Thread)
    requires Exact(s) && t in s.threads && s.threads[t].st == Blocked
    ensures t in s.blockedQueue
  {
    assert t in s.All(Blocked);
  }

  // ---- the other steps ----

  lemma AddsThread(s: Sys, t: Thread, p: Process)
    requires p in s.procs && t !in s.threads
    ensures Exact(s.AddThread(t, p)) <==> Exact(s)
  {
    OneMoved(s, s.AddThread(t, p), t);
  }

  lemma AddsProcess(s: Sys, p: Process)
    ensures Exact(s.AddProcess(p)) <==> Exact(s)
  {
    SameBlocked(s, s.AddProcess(p));
  }

  lemma Created(s: Sys, t: Thread, p: Process, r: Sys)
    requires Step(s, ThreadCreated(t, p), r)
    ensures Exact(r) <==> Exact(s)
  {
    AddsThread(s, t, p);
    OneMoved(s.AddThread(t, p), s.AddThread(t, p).NewToReady(t, p), t);
  }

  lemma Started(s: Sys, t: Thread, p: Process, now: real, r: Sys)
    requires Step(s, MainCreated(t, p, now), r)
    ensures Exact(r) <==> Exact(s)
  {
    AddsProcess(s, p);
    var a := s.AddProcess(p);
    AddsThread(a, t, p);
    OneMoved(a.AddThread(t, p), a.AddThread(t, p).NewToExec(t, p, now), t);
  }

  lemma Yields(s: Sys, p: Process, now: real)
    requires s.Inv() && p in s.procs
    ensures s.procs[p].exec != null ==> s.procs[p].exec in s.threads
    ensures Exact(s.Yielded(p, now)) <==> Exact(s)
  {
    if s.procs[p].exec != null {
      s.ExecIs(s.procs[p].exec, p);
      OneMoved(s, s.Yielded(p, now), s.procs[p].exec);
    }
  }

  lemma Dispatches(s: Sys, p: Process, sorted: seq<Thread>, now: real)
    requires s.Names() && s.Queues() && p in s.procs && s.Ordered(p, sorted) && sorted[0] in s.threads
    ensures Exact(s.Dispatch(p, sorted, now)) <==> Exact(s)
  {
    s.SortedReady(p, sorted, sorted[0]);
    var a := s.Estimated(s.procs[p].ready);
    EstimatedSame(s, p);
    hide Enumerates, Sys.Names, Sys.Queues, Sys.Ordered, Sys.Estimated, DropTid;
    OneMoved(a, s.Dispatch(p, sorted, now), sorted[0]);
  }

  lemma EstimatedSame(s: Sys, p: Process)
    requires p in s.procs
    ensures var a := s.Estimated(s.procs[p].ready);
            && (Exact(a) <==> Exact(s)) && a.threads.Keys == s.threads.Keys
            && forall t :: t in s.threads ==> a.threads[t].st == s.threads[t].st
  {
    SameBlocked(s, s.Estimated(s.procs[p].ready));
  }

  lemma Nexted(s: Sys, p: Process, sorted: seq<Thread>, now: real, r: Sys)
    requires s.Inv() && Step(s, NextAsked(p, sorted, now), r)
    ensures Exact(r) <==> Exact(s)
  {
    hide Exact, Sys.Inv, Sys.Dispatch, Sys.Ordered, Sys.Yielded;
    Yields(s, p, now);
    YieldedQueues(s, p, now);
    Dispatches(s.Yielded(p, now), p, sorted, now);
  }

  lemma YieldedQueues(s: Sys, p: Process, now: real)
    requires s.Inv() && p in s.procs && (s.procs[p].exec != null ==> Runs(s, s.procs[p].exec, p, now))
    ensures s.procs[p].exec != null ==> s.procs[p].exec in s.threads
    ensures s.Yielded(p, now).Names() && s.Yielded(p, now).Queues()
  {
    if s.procs[p].exec != null {
      s.ExecToReadyKeeps(s.procs[p].exec, p, now);
    }
    hide Sys.Names, Sys.Queues, Sys.ExecToReady;
  }

  lemma WaitsOn(s: Sys, m: Semaphore, t: Thread, p: Process, now: real, r: Sys)
    requires s.Inv() && Exact(s) && Step(s, Waited(m, t, p, now), r)
    ensures Exact(r)
  {
    ExecutingIs(s, t, p);
    hide Sys.Inv, Exact;
    if s.sems[m].value <= 0 {
      Blocking(s, t, p, now);
      SemsSame(s.ExecToBlocked(t, p, now), r);
    } else {
      SemsSame(s, r);
    }
  }

  lemma SignalsOn(s: Sys, m: Semaphore, p: Process?, r: Sys)
    requires s.Inv() && Exact(s) && Step(s, Signalled(m, p), r)
    ensures Exact(r)
  {
    hide *;
    SignalStep(s, m, p, r);
    s.SignalOnIs(m, p);
    if s.sems[m].blocked != [] && s.sems[m].value != m.max {
      HeadBlocked(s, m);
      NamesOf(s);
      Releasing(s, s.sems[m].blocked[0], p);
      SemsSame(s.BlockedToReady(s.sems[m].blocked[0], p), r);
    } else {
      SemsSame(s, r);
    }
  }

  lemma Releasing(s: Sys, t: Thread, p: Process)
    requires Exact(s) && s.Names() && t in s.threads && s.threads[t].st == Blocked && p in s.procs
    ensures Exact(s.BlockedToReady(t, p))
  {
    hide Exact, DropThread, Sys.Names;
    ReleasesOne(s, s.BlockedToReady(t, p), t);
  }

  lemma NamesOf(s: Sys)
    requires s.Inv()
    ensures s.Names()
  {
  }

  lemma JoinsOn(s: Sys, t: Thread, u: Thread, p: Process, now: real, r: Sys)
    requires s.Inv() && Exact(s) && Step(s, Joined(t, u, p, now), r)
    ensures Exact(r)
  {
    hide *;
    JoinStep(s, t, u, p, now, r);
    ExecutingIs(s, t, p);
    LinkedSame(s, t, u);
    Blocking(s.Linked(t, u), t, p, now);
  }

  lemma JoinStep(s: Sys, t: Thread, u: Thread, p: Process, now: real, r: Sys)
    requires Step(s, Joined(t, u, p, now), r)
    ensures t in s.threads && u in s.threads && p in s.procs && s.procs[p].exec == t
    ensures p in s.Linked(t, u).procs && t in s.Linked(t, u).threads && r == s.Linked(t, u).ExecToBlocked(t, p, now)
  {
  }

  lemma ExecutingIs(s: Sys, t: Thread, p: Process)
    requires s.Inv() && p in s.procs && s.procs[p].exec == t
    ensures t in s.threads && s.threads[t].st == Executing
  {
    s.ExecIs(t, p);
  }

  lemma LinkedSame(s: Sys, t: Thread, u: Thread)
    requires t in s.threads && u in s.threads
    ensures var a := s.Linked(t, u);
            && (Exact(a) <==> Exact(s)) && t in a.threads && a.threads[t].st == s.threads[t].st && a.procs == s.procs
  {
    SameBlocked(s, s.Linked(t, u));
  }

  lemma Blocking(s: Sys, t: Thread, p: Process, now: real)
    requires Exact(s) && t in s.threads && s.threads[t].st == Executing && p in s.procs
    ensures Exact(s.ExecToBlocked(t, p, now))
  {
    hide Exact;
    BlocksOne(s, s.ExecToBlocked(t, p, now), t);
  }

  lemma SemsSame(s: Sys, r: Sys)
    requires r.threads == s.threads && r.blockedQueue == s.blockedQueue
    ensures Exact(r) <==> Exact(s)
  {
    SameBlocked(s, r);
  }

  lemma AdmitsOne(s: Sys, q: Process?)
    requires s.Queues() && (s.newQueue != [] ==> q != null && q in s.procs)
    ensures s.newQueue != [] ==> s.newQueue[0] in s.threads
    ensures Exact(s.Admitted(q)) <==> Exact(s)
  {
    if s.newQueue != [] {
      s.HeadIsNew();
      OneMoved(s, s.NewToReady(s.newQueue[0], q), s.newQueue[0]);
    }
  }

  /** What makes blocked_queue inexact: a close at the limit of the multiprogramming degree of
      a thread that others have joined. */
  predicate ClosesAtLimit(s: Sys, e: Event) {
    e.Closed? && e.t in s.threads && !s.Admits() && s.threads[e.t].joinedBy != []
  }

  /** That, and nothing else. */
  lemma StepExactIff(s: Sys, e: Event, r: Sys)
    requires s.Inv() && Exact(s) && Step(s, e, r)
    ensures Exact(r) <==> !ClosesAtLimit(s, e)
  {
    match e
    case MainCreated(t, p, now) => Started(s, t, p, now, r);
    case ThreadCreated(t, p) => Created(s, t, p, r);
    case NextAsked(p, sorted, now) => Nexted(s, p, sorted, now, r);
    case Closed(t, p, q) => ClosedExact(s, t, p, q, r);
    case Waited(m, t, p, now) => WaitsOn(s, m, t, p, now, r);
    case Signalled(m, p) => SignalsOn(s, m, p, r);
    case Joined(t, u, p, now) => JoinsOn(s, t, u, p, now, r);
    case Refused =>
  }

  lemma ClosedExact(s: Sys, t: Thread, p: Process, q: Process?, r: Sys)
    requires s.Inv() && Exact(s) && Step(s, Closed(t, p, q), r)
    ensures t in s.threads && (Exact(r) <==> s.Admits() || s.threads[t].joinedBy == [])
  {
    hide Exact, Sys.Leaving, Sys.Admitted;
    s.LeavingKeeps(t, p);
    s.Leaving(t, p).ClosedFacts(s, t);
    LeavingExactIff(s, t, p);
    hide Sys.Inv;
    QueuesOf(s.Leaving(t, p));
    AdmitsOne(s.Leaving(t, p), q);
  }

  lemma QueuesOf(s: Sys)
    requires s.Inv()
    ensures s.Queues()
  {
  }

  /** So in every run blocked_queue is exact as long as no thread that others have joined is
      closed at the limit. */
  lemma {:induction false} RunExact(ss: seq<Sys>, es: seq<Event>)
    requires Run(ss, es) && |ss| == |es| + 1
    requires forall i :: 0 <= i < |es| ==> !ClosesAtLimit(ss[i], es[i])
    ensures Exact(ss[|es|])
    decreases |es|
  {
    hide *;
    if es == [] {
      StartsExact(ss, es);
    } else {
      var n := |es| - 1;
      RunLast(ss, es);
      RunExact(ss[..n + 1], es[..n]);
      RunInv(ss[..n + 1], es[..n]);
      StepExactIff(ss[n], es[n], ss[n + 1]);
    }
  }

  lemma StartsExact(ss: seq<Sys>, es: seq<Event>)
    requires Run(ss, es)
    ensures Exact(ss[0])
  {
    assert ss[0].All(Blocked) == {};
  }
}
