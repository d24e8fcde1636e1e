/** The requests of the SUSE scheduler as atomic steps, and what every interleaving keeps. */
module SuseRuns {
  import opened SuseRecords
  import opened SuseState

  /** One served request: who it was about and, where the source reads the clock, when. */
  datatype Event =
    | MainCreated(t: Thread, p: Process, now: real)
    | ThreadCreated(t: Thread, p: Process)
    | NextAsked(p: Process, sorted: seq<Thread>, now: real)
    | Closed(t: Thread, p: Process, q: Process?)
    | Waited(m: Semaphore, t: Thread, p: Process, now: real)
    | Signalled(m: Semaphore, q: Process?)
    | Joined(t: Thread, u: Thread, p: Process, now: real)
    | Refused

  ghost predicate Fresh(s: Sys, t: Thread, p: Process) {
    && t !in s.threads && t.procesoId == p.id
    && (p in s.procs ==> forall u :: u in s.procs[p].ults ==> u.tid != t.tid)
  }

  /** The executing thread of `p` is `t`, and the clock has not gone back since it started. */
  ghost predicate Runs(s: Sys, t: Thread, p: Process, now: real) {
    p in s.procs && s.procs[p].exec == t && t in s.threads && now >= s.threads[t].burst
  }

  ghost predicate Step(s: Sys, e: Event, r: Sys) {
    match e
    case MainCreated(t, p, now) =>
      && p !in s.procs && (forall q :: q in s.procs ==> q.id != p.id) && Fresh(s, t, p) && now > 0.0
      && var a := s.AddProcess(p).AddThread(t, p);
         r == if a.Admits() then a.NewToExec(t, p, now) else a
    case ThreadCreated(t, p) =>
      && p in s.procs && Fresh(s, t, p)
      && var a := s.AddThread(t, p);
         r == if a.Admits() then a.NewToReady(t, p) else a
    case NextAsked(p, sorted, now) =>
      && p in s.procs && now > 0.0
      && (s.procs[p].exec != null ==> Runs(s, s.procs[p].exec, p, now))
      && var a := s.Yielded(p, now);
         && p in a.procs && a.Ordered(p, sorted) && sorted[0] in a.threads
         && r == a.Dispatch(p, sorted, now)
    case Closed(t, p, q) =>
      && t in s.threads && s.threads[t].st in {Ready, Executing} && p in s.procs && p.id == t.procesoId
      && (forall i :: 0 <= i < |s.threads[t].joinedBy| ==> s.threads[t].joinedBy[i] in s.threads)
      && var a := s.Leaving(t, p);
         && (a.newQueue != [] ==>
            q != null && q in a.procs && q.id == a.newQueue[0].procesoId
            && a.newQueue[0] in a.threads)
         && r == a.Admitted(q)
    case Waited(m, t, p, now) =>
      m in s.sems && Runs(s, t, p, now) && r == s.WaitOn(m, t, p, now)
    case Signalled(m, p) =>
      && m in s.sems
      && (s.sems[m].blocked != [] ==>
         p != null && p in s.procs && p.id == s.sems[m].blocked[0].procesoId
         && s.sems[m].blocked[0] in s.threads)
      && r == s.SignalOn(m, p)
    case Joined(t, u, p, now) =>
      Runs(s, t, p, now) && u in s.procs[p].ults && u in s.threads && r == s.JoinOn(t, u, p, now)
    case Refused =>
      r == s
  }

  /** Every request keeps the whole invariant. */
  lemma StepKeeps(s: Sys, e: Event, r: Sys)
    requires s.Inv() && Step(s, e, r)
    ensures r.Inv()
  {
    match e
    case MainCreated(t, p, now) => MainKeeps(s, t, p, now, r);
    case ThreadCreated(t, p) => CreatedKeeps(s, t, p, r);
    case NextAsked(p, sorted, now) => NextStepKeeps(s, p, sorted, now, r);
    case Closed(t, p, q) => ClosedKeeps(s, t, p, q, r);
    case Waited(m, t, p, now) => s.WaitKeeps(m, t, p, now);
    case Signalled(m, p) => s.SignalKeeps(m, p);
    case Joined(t, u, p, now) => s.JoinKeeps(t, u, p, now);
    case Refused =>
  }

  lemma CreatedKeeps(s: Sys, t: Thread, p: Process, r: Sys)
    requires s.Inv() && Step(s, ThreadCreated(t, p), r)
    ensures r.Inv()
  {
    hide Sys.Inv;
    s.AddThreadKeeps(t, p);
    var a := s.AddThread(t, p);
    if a.Admits() {
      a.NewToReadyKeeps(t, p);
    }
  }

  lemma MainKeeps(s: Sys, t: Thread, p: Process, now: real, r: Sys)
    requires s.Inv() && Step(s, MainCreated(t, p, now), r)
    ensures r.Inv()
  {
    hide Sys.Inv;
    s.AddProcessKeeps(p);
    s.AddProcess(p).AddThreadKeeps(t, p);
    var a := s.AddProcess(p).AddThread(t, p);
    if a.Admits() {
      a.NewToExecKeeps(t, p, now);
    }
  }

  lemma NextStepKeeps(s: Sys, p: Process, sorted: seq<Thread>, now: real, r: Sys)
    requires s.Inv() && Step(s, NextAsked(p, sorted, now), r)
    ensures r.Inv()
  {
    hide Sys.Inv, Sys.Dispatch, Sys.Ordered, Sys.Yielded;
    s.NextKeeps(p, sorted, now);
  }

  lemma ClosedKeeps(s: Sys, t: Thread, p: Process, q: Process?, r: Sys)
    requires s.Inv() && Step(s, Closed(t, p, q), r)
    ensures r.Inv()
  {
    hide Sys.Inv, Sys.Leaving, Sys.Admitted;
    s.LeavingKeeps(t, p);
    s.Leaving(t, p).ClosedFacts(s, t);
    s.Leaving(t, p).AdmittedKeeps(q);
  }

  /** The requests follow one another. */
  ghost predicate Follows(ss: seq<Sys>, es: seq<Event>) {
    |ss| == |es| + 1 && forall i :: 0 <= i < |es| ==> Step(ss[i], es[i], ss[i + 1])
  }

  lemma FollowsLast(ss: seq<Sys>, es: seq<Event>)
    requires Follows(ss, es) && es != []
    ensures |ss| == |es| + 1
    ensures var n := |es| - 1; Follows(ss[..n + 1], es[..n]) && Step(ss[n], es[n], ss[n + 1]) && ss[..n + 1][n] == ss[n]
  {
    var n := |es| - 1;
    var st, et := ss[..n + 1], es[..n];
    assert Step(ss[n], es[n], ss[n + 1]);
    forall i | 0 <= i < |et| ensures Step(st[i], et[i], st[i + 1]) {
      assert Step(ss[i], es[i], ss[i + 1]);
    }
    hide Step;
  }

  /** In every interleaving of the requests the invariant holds all along. */
  lemma {:induction false} RunKeeps(ss: seq<Sys>, es: seq<Event>)
    requires Follows(ss, es) && ss[0].Inv()
    ensures |ss| == |es| + 1 && ss[|es|].Inv()
    decreases |es|
  {
    LengthIs(ss, es);
    hide *;
    if es != [] {
      var n := |es| - 1;
      FollowsLast(ss, es);
      RunKeeps(ss[..n + 1], es[..n]);
      StepKeeps(ss[n], es[n], ss[n + 1]);
    }
  }

  lemma LengthIs(ss: seq<Sys>, es: seq<Event>)
    requires Follows(ss, es)
    ensures |ss| == |es| + 1
  {
  }

  /** No process yet, and semaphores as configured. */
  ghost predicate Initial(s: Sys) {
    && s.threads == map[] && s.procs == map[] && s.newQueue == s.blockedQueue == s.exitQueue == []
    && s.actual == 0 <= s.limit
    && forall m :: m in s.sems ==> 0 <= m.init <= m.max && s.sems[m] == Sem(m.init, [], 0, 0, [], [])
  }

  lemma InitialKeeps(s: Sys)
    requires Initial(s)
    ensures s.Inv()
  {
    InitialQueues(s);
    InitialRest(s);
    InitialWaits(s);
    hide *;
    s.CoreIs();
    s.InvIs();
  }

  lemma InitialQueues(s: Sys)
    requires Initial(s)
    ensures s.Names() && s.Queues()
  {
    hide Sys.ProcOk;
    assert s.All(New) == {};
  }

  lemma InitialRest(s: Sys)
    requires Initial(s)
    ensures s.Counted() && s.Bursts()
  {
    hide Sys.BurstOk;
    assert s.Active() == {};
  }

  lemma InitialWaits(s: Sys)
    requires Initial(s)
    ensures s.Semaphores() && s.JoinsBy(null, [])
  {
    hide Sys.JoinOk;
  }

  /** A run of the scheduler from its start. */
  ghost predicate Run(ss: seq<Sys>, es: seq<Event>) {
    Follows(ss, es) && Initial(ss[0])
  }

  lemma RunLast(ss: seq<Sys>, es: seq<Event>)
    requires Run(ss, es) && es != []
    ensures |ss| == |es| + 1
    ensures var n := |es| - 1;
            Step(ss[n], es[n], ss[n + 1]) && Run(ss[..n + 1], es[..n]) && ss[..n + 1][n] == ss[n]
            && ss[..n + 1][0] == ss[0]
  {
    FollowsLast(ss, es);
    hide Step, Initial, Follows;
  }

  lemma RunInv(ss: seq<Sys>, es: seq<Event>)
    requires Run(ss, es)
    ensures |ss| == |es| + 1 && ss[|es|].Inv()
  {
    InitialKeeps(ss[0]);
    RunKeeps(ss, es);
  }

  /** An accepted signal wakes exactly the thread that has waited longest, if any. */
  lemma SignalWakesFirst(s: Sys, m: Semaphore, p: Process?, r: Sys)
    requires s.Inv() && Step(s, Signalled(m, p), r)
    ensures m in s.sems && m in r.sems
    ensures var e := s.sems[m];
            if e.value == m.max then r == s else
            && r.sems[m].value == e.value + 1 && r.sems[m].signals == e.signals + 1 && r.threads.Keys == s.threads.Keys
            && forall t :: t in s.threads ==>
                 if e.blocked != [] && t == e.blocked[0] then s.threads[t].st == Blocked && r.threads[t].st == Ready
                 else r.threads[t] == s.threads[t]
  {
    SignalStep(s, m, p, r);
    SignalEffect(s, m, p);
    if s.sems[m].blocked != [] {
      HeadBlocked(s, m);
    }
    hide *;
  }

  lemma SignalStep(s: Sys, m: Semaphore, p: Process?, r: Sys)
    requires Step(s, Signalled(m, p), r)
    ensures m in s.sems && (s.sems[m].blocked != [] ==> s.sems[m].blocked[0] in s.threads && p != null && p in s.procs)
    ensures r == s.SignalOn(m, p)
  {
  }

  lemma SignalEffect(s: Sys, m: Semaphore, p: Process?)
    requires m in s.sems && (s.sems[m].blocked != [] ==> s.sems[m].blocked[0] in s.threads && p != null && p in s.procs)
    ensures var e, r := s.sems[m], s.SignalOn(m, p);
            if e.value == m.max then r == s else
            && m in r.sems && r.sems[m].value == e.value + 1 && r.sems[m].signals == e.signals + 1
            && r.threads.Keys == s.threads.Keys
            && (e.blocked != [] ==> r.threads[e.blocked[0]].st == Ready)
            && forall t :: t in s.threads && (e.blocked == [] || t != e.blocked[0]) ==> r.threads[t] == s.threads[t]
  {
    hide DropThread;
  }

  lemma HeadBlocked(s: Sys, m: Semaphore)
    requires s.Inv() && m in s.sems && s.sems[m].blocked != []
    ensures s.sems[m].blocked[0] in s.threads && s.threads[s.sems[m].blocked[0]].st == Blocked
  {
    assert s.SemOk(m);
  }

  lemma JoinersOf(s: Sys, t: Thread, y: Thread)
    requires s.Inv() && t in s.threads && s.threads[t].st != Exited && y in s.threads
    ensures y in s.threads[t].joinedBy <==> s.threads[y].joinTo == [t]
    ensures s.threads[y].joinTo == [t] ==> s.threads[y].st == Blocked && !s.Waiting(y)
  {
    assert s.JoinOk(t, null, []) && s.JoinOk(y, null, []);
    if s.threads[y].joinTo == [t] {
      s.NotWaiting(y);
    }
  }

  lemma WaitsFor(s: Sys, t: Thread)
    requires s.Inv() && t in s.threads
    ensures s.threads[t].st == Blocked <==> s.threads[t].joinTo != [] || s.Waiting(t)
    ensures s.threads[t].joinTo != [] ==>
              && !s.Waiting(t) && |s.threads[t].joinTo| == 1
              && s.threads[t].joinTo[0] in s.threads && s.threads[s.threads[t].joinTo[0]].st != Exited
  {
    assert s.JoinOk(t, null, []);
    if s.threads[t].joinTo != [] {
      s.NotWaiting(t);
    }
    if m :| m in s.sems && t in s.sems[m].blocked {
      assert s.SemOk(m);
    }
  }

  /** Closing a thread releases exactly the threads that had joined it. */
  lemma CloseReleases(s: Sys, t: Thread, p: Process, y: Thread)
    requires s.Inv() && t in s.threads && s.threads[t].st in {Ready, Executing} && p in s.procs && p.id == t.procesoId
    requires y in s.threads && s.threads[y].st == Blocked
    ensures forall i :: 0 <= i < |s.threads[t].joinedBy| ==> s.threads[t].joinedBy[i] in s.threads
    ensures y in s.Leaving(t, p).threads
    ensures s.Leaving(t, p).threads[y].st != Blocked <==> s.threads[y].joinTo == [t]
    ensures s.threads[y].joinTo != [t] ==> s.Leaving(t, p).threads[y] == s.threads[y]
  {
    hide Sys.Inv, Sys.Leaving;
    s.LeavingKeeps(t, p);
    s.Leaving(t, p).ClosedFacts(s, t);
    JoinersOf(s, t, y);
  }

  lemma EstimateOf(s: Sys, t: Thread, longest: real)
    requires s.Inv() && t in s.threads && 0.0 <= s.alpha <= 1.0
    requires forall i :: 0 <= i < |s.threads[t].bursts| ==> s.threads[t].bursts[i] <= longest
    requires 0.0 <= longest
    ensures s.threads[t].st == Executing ==>
              var b := s.threads[t].bursts; s.threads[t].est == Weighted(s.alpha, b, |b|)
    ensures s.threads[t].st != Exited ==> 0.0 <= s.threads[t].est <= longest
  {
    var b := s.threads[t].bursts;
    s.BurstAt(t);
    AverageIsWeighted(s.alpha, b);
    AverageBounds(s.alpha, b, longest);
    if b != [] {
      AverageBounds(s.alpha, b[..|b| - 1], longest);
    }
  }

  /** In every run joinedBy is exact: it lists the threads that wait for this one. */
  lemma JoinersAre(ss: seq<Sys>, es: seq<Event>, t: Thread, y: Thread)
    requires Run(ss, es) && t in ss[|es|].threads && ss[|es|].threads[t].st != Exited && y in ss[|es|].threads
    ensures var s := ss[|es|];
            && (y in s.threads[t].joinedBy <==> s.threads[y].joinTo == [t])
            && (s.threads[y].joinTo == [t] ==> s.threads[y].st == Blocked && !s.Waiting(y))
  {
    RunInv(ss, es);
    JoinersOf(ss[|es|], t, y);
  }

  /** In every run a blocked thread waits for one thread that has not exited or for a
      semaphore, never for both, and only blocked threads wait. */
  lemma BlockedFor(ss: seq<Sys>, es: seq<Event>, t: Thread)
    requires Run(ss, es) && t in ss[|es|].threads
    ensures var s := ss[|es|];
            && (s.threads[t].st == Blocked <==> s.threads[t].joinTo != [] || s.Waiting(t))
            && (s.threads[t].joinTo != [] ==>
                  && !s.Waiting(t) && |s.threads[t].joinTo| == 1
                  && s.threads[t].joinTo[0] in s.threads && s.threads[s.threads[t].joinTo[0]].st != Exited)
  {
    RunInv(ss, es);
    WaitsFor(ss[|es|], t);
  }
}
