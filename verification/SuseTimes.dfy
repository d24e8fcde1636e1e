/** The bursts behind the estimates, read off the clock in the requests of a run. */
module SuseTimes {
  import opened Sequences
  import opened SuseRecords
  import opened SuseState
  import opened SuseRuns

  /** When the request came. */
  function Clock(e: Event): real {
    match e
    case MainCreated(_, _, now) => now
    case NextAsked(_, _, now) => now
    case Waited(_, _, _, now) => now
    case Joined(_, _, _, now) => now
    case _ => 0.0
  }

  /** The request lets thread `t` execute: as the first of its process below the limit, or as
      the one that suse_schedule_next chose. */
  ghost predicate Starts(s: Sys, e: Event, t: Thread) {
    match e
    case MainCreated(u, _, _) => u == t && s.actual < s.limit
    case NextAsked(_, sorted, _) => sorted != [] && sorted[0] == t
    case _ => false
  }

  /** The request ends a burst of `t`: another thread of its process is asked for, or it has to
      wait at a semaphore or for a thread. */
  ghost predicate Stops(s: Sys, e: Event, t: Thread) {
    match e
    case NextAsked(p, _, _) => p in s.procs && s.procs[p].exec == t
    case Waited(m, u, _, _) => u == t && m in s.sems && s.sems[m].value <= 0
    case Joined(u, _, _, _) => u == t
    case _ => false
  }

  /** When the thread was last let to execute. */
  ghost function StartOf(ss: seq<Sys>, es: seq<Event>, t: Thread): real
    requires |ss| == |es| + 1
    decreases |es|
  {
    if es == [] then 0.0 else
    var n := |es| - 1;
    if Starts(ss[n], es[n], t) then Clock(es[n]) else StartOf(ss[..n + 1], es[..n], t)
  }

  /** How long each burst of the thread was, from the request that started it to the one that
      ended it. */
  ghost function Lengths(ss: seq<Sys>, es: seq<Event>, t: Thread): seq<real>
    requires |ss| == |es| + 1
    decreases |es|
  {
    if es == [] then [] else
    var n := |es| - 1;
    Lengths(ss[..n + 1], es[..n], t)
    + if Stops(ss[n], es[n], t) then [Clock(es[n]) - StartOf(ss[..n + 1], es[..n], t)] else []
  }

  // ---- what a step does to a thread's bursts ----

  /** From `a` to `b`, when the clock shows `now`. */
  ghost predicate Timed(a: Rec, b: Rec, stops: bool, starts: bool, now: real) {
    && b.bursts == a.bursts + (if stops then [now - a.burst] else [])
    && (stops ==> a.st == Executing)
    && (starts ==> b.st == Executing && b.burst == now)
    && (b.st == Executing && !starts ==> a.st == Executing && !stops && b.burst == a.burst)
  }

  lemma Untimed(a: Rec, b: Rec, c: Rec)
    requires Timed(a, b, false, false, 0.0) && Timed(b, c, false, false, 0.0)
    ensures Timed(a, c, false, false, 0.0)
  {
  }

  lemma StepTimes(s: Sys, e: Event, r: Sys, t: Thread)
    requires s.Inv() && Step(s, e, r) && t in s.threads
    ensures t in r.threads && Timed(s.threads[t], r.threads[t], Stops(s, e, t), Starts(s, e, t), Clock(e))
  {
    hide Sys.Inv, Step, Timed;
    match e
    case MainCreated(u, p, now) => MainTimes(s, u, p, now, r, t);
    case ThreadCreated(u, p) => CreatedTimes(s, u, p, r, t);
    case NextAsked(p, sorted, now) => NextTimes(s, p, sorted, now, r, t);
    case Closed(u, p, q) => ClosedTimes(s, u, p, q, r, t);
    case Waited(m, u, p, now) => WaitTimes(s, m, u, p, now, r, t);
    case Signalled(m, p) => SignalTimes(s, m, p, r, t);
    case Joined(u, v, p, now) => JoinTimes(s, u, v, p, now, r, t);
    case Refused => RefusedTimes(s, r, t);
  }

  lemma RefusedTimes(s: Sys, r: Sys, t: Thread)
    requires Step(s, Refused, r) && t in s.threads
    ensures t in r.threads && Timed(s.threads[t], r.threads[t], false, false, 0.0)
  {
  }

  lemma RunsIs(s: Sys, t: Thread, p: Process)
    requires s.Inv() && p in s.procs && s.procs[p].exec == t
    ensures t in s.threads && s.threads[t].st == Executing && s.threads[t].burst > 0.0
  {
    s.ExecIs(t, p);
    s.BurstAt(t);
  }

  lemma MainTimes(s: Sys, u: Thread, p: Process, now: real, r: Sys, t: Thread)
    requires Step(s, MainCreated(u, p, now), r) && t in s.threads
    ensures var e := MainCreated(u, p, now);
            t in r.threads && Timed(s.threads[t], r.threads[t], Stops(s, e, t), Starts(s, e, t), now)
  {
    hide DropThread;
  }

  lemma CreatedTimes(s: Sys, u: Thread, p: Process, r: Sys, t: Thread)
    requires Step(s, ThreadCreated(u, p), r) && t in s.threads
    ensures t in r.threads && Timed(s.threads[t], r.threads[t], false, false, 0.0)
  {
    hide DropThread;
  }

  lemma WaitTimes(s: Sys, m: Semaphore, u: Thread, p: Process, now: real, r: Sys, t: Thread)
    requires s.Inv() && Step(s, Waited(m, u, p, now), r) && t in s.threads
    ensures t in r.threads && Timed(s.threads[t], r.threads[t], Stops(s, Waited(m, u, p, now), t), false, now)
  {
    hide Sys.Inv;
    RunsIs(s, u, p);
    BlockedTimes(s, u, p, now, t);
    hide Sys.ExecToBlocked;
  }

  lemma BlockedTimes(s: Sys, u: Thread, p: Process, now: real, t: Thread)
    requires u in s.threads && p in s.procs && t in s.threads
    requires s.threads[u].st == Executing && s.threads[u].burst > 0.0
    ensures t in s.ExecToBlocked(u, p, now).threads
    ensures Timed(s.threads[t], s.ExecToBlocked(u, p, now).threads[t], u == t, false, now)
    ensures u == t ==> s.ExecToBlocked(u, p, now).threads[t].bursts == s.threads[t].bursts + [now - s.threads[t].burst]
  {
  }

  lemma JoinTimes(s: Sys, u: Thread, v: Thread, p: Process, now: real, r: Sys, t: Thread)
    requires s.Inv() && Step(s, Joined(u, v, p, now), r) && t in s.threads
    ensures t in r.threads && Timed(s.threads[t], r.threads[t], u == t, false, now)
  {
    hide Sys.Inv;
    RunsIs(s, u, p);
    var a := s.Linked(u, v);
    LinkedTimes(s, u, v, t);
    LinkedTimes(s, u, v, u);
    BlockedTimes(a, u, p, now, t);
    hide Sys.ExecToBlocked, Sys.Linked;
  }

  lemma LinkedTimes(s: Sys, u: Thread, v: Thread, t: Thread)
    requires u in s.threads && v in s.threads && t in s.threads
    ensures var a := s.Linked(u, v);
            && t in a.threads && a.threads.Keys == s.threads.Keys && a.procs == s.procs
            && a.threads[t] == s.threads[t].(joinTo := a.threads[t].joinTo, joinedBy := a.threads[t].joinedBy)
  {
  }

  lemma YieldedRec(s: Sys, p: Process, now: real, t: Thread)
    requires p in s.procs && t in s.threads
    requires s.procs[p].exec != null ==> s.procs[p].exec in s.threads && s.threads[s.procs[p].exec].burst != 0.0
    ensures t in s.Yielded(p, now).threads
    ensures s.Yielded(p, now).threads[t] ==
            if s.procs[p].exec == t then Finished(s.threads[t], Ready, now - s.threads[t].burst) else s.threads[t]
  {
  }

  lemma DispatchRec(s: Sys, p: Process, sorted: seq<Thread>, now: real, t: Thread)
    requires p in s.procs && sorted != [] && sorted[0] in s.threads && t in s.threads
    ensures t in s.Dispatch(p, sorted, now).threads
    ensures var a, b := s.threads[t], s.Dispatch(p, sorted, now).threads[t];
            && b.bursts == a.bursts
            && if t == sorted[0] then b.st == Executing && b.burst == now else b.st == a.st && b.burst == a.burst
  {
    hide DropTid;
  }

  lemma NextTimes(s: Sys, p: Process, sorted: seq<Thread>, now: real, r: Sys, t: Thread)
    requires s.Inv() && Step(s, NextAsked(p, sorted, now), r) && t in s.threads
    ensures var e := NextAsked(p, sorted, now);
            t in r.threads && Timed(s.threads[t], r.threads[t], Stops(s, e, t), Starts(s, e, t), now)
  {
    hide *;
    NextIs(s, p, sorted, now, r);
    if s.procs[p].exec != null {
      RunsIs(s, s.procs[p].exec, p);
    }
    YieldedRec(s, p, now, t);
    DispatchRec(s.Yielded(p, now), p, sorted, now, t);
    NextTimed(s, p, sorted, now, s.threads[t], s.Yielded(p, now).threads[t], r.threads[t], t);
  }

  lemma NextTimed(s: Sys, p: Process, sorted: seq<Thread>, now: real, a: Rec, b: Rec, c: Rec, t: Thread)
    requires p in s.procs && sorted != [] && (s.procs[p].exec == t ==> a.st == Executing)
    requires b == if s.procs[p].exec == t then Finished(a, Ready, now - a.burst) else a
    requires c.bursts == b.bursts
    requires if t == sorted[0] then c.st == Executing && c.burst == now else c.st == b.st && c.burst == b.burst
    ensures var e := NextAsked(p, sorted, now); Timed(a, c, Stops(s, e, t), Starts(s, e, t), now)
  {
  }

  lemma NextIs(s: Sys, p: Process, sorted: seq<Thread>, now: real, r: Sys)
    requires Step(s, NextAsked(p, sorted, now), r)
    ensures p in s.procs && (s.procs[p].exec != null ==> s.procs[p].exec in s.threads)
    ensures var a := s.Yielded(p, now);
            p in a.procs && sorted != [] && sorted[0] in a.threads && r == a.Dispatch(p, sorted, now)
  {
    hide Sys.Dispatch;
  }

  lemma SignalTimes(s: Sys, m: Semaphore, p: Process?, r: Sys, t: Thread)
    requires s.Inv() && Step(s, Signalled(m, p), r) && t in s.threads
    ensures t in r.threads && Timed(s.threads[t], r.threads[t], false, false, 0.0)
  {
    hide Sys.Inv, DropThread;
  }

  lemma UnjoinTimes(s: Sys, u: Thread, x: Thread, p: Process, t: Thread)
    requires p in s.procs && x in s.threads && t in s.threads
    ensures t in s.Unjoin(u, x, p).threads && Timed(s.threads[t], s.Unjoin(u, x, p).threads[t], false, false, 0.0)
  {
    hide DropThread, DropTid;
  }

  lemma {:induction false} UnjoinAllTimes(s: Sys, u: Thread, js: seq<Thread>, p: Process, t: Thread)
    requires p in s.procs && (forall i :: 0 <= i < |js| ==> js[i] in s.threads) && t in s.threads
    ensures t in s.UnjoinAll(u, js, p).threads
    ensures Timed(s.threads[t], s.UnjoinAll(u, js, p).threads[t], false, false, 0.0)
    decreases |js|
  {
    if js != [] {
      hide Timed, Sys.Unjoin;
      var a := s.Unjoin(u, js[0], p);
      UnjoinTimes(s, u, js[0], p, t);
      UnjoinAllTimes(a, u, js[1..], p, t);
      Untimed(s.threads[t], a.threads[t], s.UnjoinAll(u, js, p).threads[t]);
    } else {
      hide Sys.Unjoin;
    }
  }

  lemma ClosedTimes(s: Sys, u: Thread, p: Process, q: Process?, r: Sys, t: Thread)
    requires Step(s, Closed(u, p, q), r) && t in s.threads
    ensures t in r.threads && Timed(s.threads[t], r.threads[t], false, false, 0.0)
  {
    ClosedIs(s, u, p, q, r);
    s.LeavingIs(u, p);
    var a := s.UnjoinAll(u, s.threads[u].joinedBy, p);
    UnjoinAllTimes(s, u, s.threads[u].joinedBy, p, t);
    hide *;
    EndedTimes(a, u, p, t);
    AdmittedTimes(s.Leaving(u, p), q, t);
    Untimed(s.threads[t], a.threads[t], a.Ended(u, p).threads[t]);
    Untimed(s.threads[t], a.Ended(u, p).threads[t], r.threads[t]);
  }

  lemma ClosedIs(s: Sys, u: Thread, p: Process, q: Process?, r: Sys)
    requires Step(s, Closed(u, p, q), r)
    ensures u in s.threads && s.threads[u].st in {Ready, Executing} && p in s.procs && p.id == u.procesoId
    ensures forall i :: 0 <= i < |s.threads[u].joinedBy| ==> s.threads[u].joinedBy[i] in s.threads
    ensures var a := s.Leaving(u, p);
            && (a.newQueue != [] ==>
                  q != null && q in a.procs && q.id == a.newQueue[0].procesoId && a.newQueue[0] in a.threads)
            && r == a.Admitted(q)
  {
    hide Sys.Leaving, Sys.Admitted;
  }

  lemma EndedTimes(s: Sys, u: Thread, p: Process, t: Thread)
    requires u in s.threads && p in s.procs && t in s.threads
    ensures t in s.Ended(u, p).threads && Timed(s.threads[t], s.Ended(u, p).threads[t], false, false, 0.0)
  {
    hide DropTid;
  }

  lemma AdmittedTimes(s: Sys, q: Process?, t: Thread)
    requires t in s.threads && (s.newQueue != [] ==> s.newQueue[0] in s.threads && q != null && q in s.procs)
    ensures t in s.Admitted(q).threads && Timed(s.threads[t], s.Admitted(q).threads[t], false, false, 0.0)
  {
    hide DropThread;
  }

  /** A thread that a step creates. */
  lemma NewTimes(s: Sys, e: Event, r: Sys, t: Thread)
    requires s.Inv() && Step(s, e, r) && t !in s.threads && t in r.threads
    ensures r.threads[t].bursts == []
    ensures r.threads[t].st == Executing ==> Starts(s, e, t) && r.threads[t].burst == Clock(e)
    ensures !Stops(s, e, t)
  {
    NewThreads(s, e, r);
  }

  lemma NewThreads(s: Sys, e: Event, r: Sys)
    requires Step(s, e, r)
    ensures r.threads.Keys == s.threads.Keys + if e.MainCreated? || e.ThreadCreated? then {e.t} else {}
  {
    hide DropThread, DropTid, Sys.UnjoinAll;
  }

  // ---- over runs ----

  lemma {:induction false} NotYet(ss: seq<Sys>, es: seq<Event>, t: Thread)
    requires Run(ss, es) && t !in ss[|es|].threads
    ensures |ss| == |es| + 1 && Lengths(ss, es, t) == []
    decreases |es|
  {
    LengthIs(ss, es);
    if es != [] {
      var n := |es| - 1;
      hide *;
      RunLast(ss, es);
      NewThreads(ss[n], es[n], ss[n + 1]);
      NotYet(ss[..n + 1], es[..n], t);
      RunInv(ss[..n + 1], es[..n]);
      StrangerStays(ss[n], es[n], ss[n + 1], t);
      LengthsNext(ss, es, t, ss[n], es[n], [], StartOf(ss[..n + 1], es[..n], t));
    } else {
      hide *;
      NoLengths(ss, t);
    }
  }

  lemma StrangerStays(s: Sys, e: Event, r: Sys, t: Thread)
    requires s.Inv() && Step(s, e, r) && t !in s.threads
    ensures !Stops(s, e, t)
  {
  }

  lemma NoLengths(ss: seq<Sys>, t: Thread)
    requires |ss| == 1
    ensures Lengths(ss, [], t) == [] && StartOf(ss, [], t) == 0.0
  {
  }

  lemma LengthsNext(ss: seq<Sys>, es: seq<Event>, t: Thread, s: Sys, e: Event, times: seq<real>, start: real)
    requires |ss| == |es| + 1 && es != []
    requires var n := |es| - 1;
             && s == ss[n] && e == es[n]
             && times == Lengths(ss[..n + 1], es[..n], t) && start == StartOf(ss[..n + 1], es[..n], t)
    ensures Lengths(ss, es, t) == times + (if Stops(s, e, t) then [Clock(e) - start] else [])
    ensures StartOf(ss, es, t) == if Starts(s, e, t) then Clock(e) else start
  {
    hide *;
    LengthsUnfold(ss, es, t);
    StartUnfold(ss, es, t);
    SameStep(ss, es, s, e, t);
  }

  lemma SameStep(ss: seq<Sys>, es: seq<Event>, s: Sys, e: Event, t: Thread)
    requires |ss| == |es| + 1 && es != [] && s == ss[|es| - 1] && e == es[|es| - 1]
    ensures Stops(s, e, t) == Stops(ss[|es| - 1], es[|es| - 1], t)
    ensures Starts(s, e, t) == Starts(ss[|es| - 1], es[|es| - 1], t)
    ensures Clock(e) == Clock(es[|es| - 1])
  {
    hide *;
  }

  lemma LengthsUnfold(ss: seq<Sys>, es: seq<Event>, t: Thread)
    requires |ss| == |es| + 1 && es != []
    ensures var n := |es| - 1;
            Lengths(ss, es, t) ==
            Lengths(ss[..n + 1], es[..n], t)
            + if Stops(ss[n], es[n], t) then [Clock(es[n]) - StartOf(ss[..n + 1], es[..n], t)] else []
  {
    hide Starts, Stops, Clock, StartOf;
  }

  lemma StartUnfold(ss: seq<Sys>, es: seq<Event>, t: Thread)
    requires |ss| == |es| + 1 && es != []
    ensures var n := |es| - 1;
            StartOf(ss, es, t) == if Starts(ss[n], es[n], t) then Clock(es[n]) else StartOf(ss[..n + 1], es[..n], t)
  {
    hide Starts, Stops, Clock, Lengths;
  }

  /** In every run a thread's bursts are the lengths of time for which it has executed: from
      the request that started it to the one that stopped it. */
  lemma {:induction false} BurstsAreTimes(ss: seq<Sys>, es: seq<Event>, t: Thread)
    requires Run(ss, es) && t in ss[|es|].threads
    ensures |ss| == |es| + 1
    ensures var r := ss[|es|].threads[t];
            && r.bursts == Lengths(ss, es, t)
            && (r.st == Executing ==> r.burst == StartOf(ss, es, t))
    decreases |es|
  {
    LengthIs(ss, es);
    if es != [] {
      var n := |es| - 1;
      hide *;
      RunLast(ss, es);
      RunInv(ss[..n + 1], es[..n]);
      if t in ss[n].threads {
        BurstsAreTimes(ss[..n + 1], es[..n], t);
      } else {
        NotYet(ss[..n + 1], es[..n], t);
      }
      BurstsNext(ss, es, t, ss[n], es[n], ss[n + 1], Lengths(ss[..n + 1], es[..n], t),
                 StartOf(ss[..n + 1], es[..n], t));
    }
  }

  lemma BurstsNext(ss: seq<Sys>, es: seq<Event>, t: Thread, s: Sys, e: Event, r: Sys, times: seq<real>, start: real)
    requires |ss| == |es| + 1 && es != [] && r == ss[|es|] && t in r.threads && s.Inv() && Step(s, e, r)
    requires var n := |es| - 1;
             && s == ss[n] && e == es[n]
             && times == Lengths(ss[..n + 1], es[..n], t) && start == StartOf(ss[..n + 1], es[..n], t)
    requires if t !in s.threads then times == [] else
             && s.threads[t].bursts == times && (s.threads[t].st == Executing ==> s.threads[t].burst == start)
    ensures r.threads[t].bursts == Lengths(ss, es, t)
    ensures r.threads[t].st == Executing ==> r.threads[t].burst == StartOf(ss, es, t)
  {
    hide *;
    LengthsNext(ss, es, t, s, e, times, start);
    StepBursts(s, e, r, t, times, start);
  }

  lemma StepBursts(s: Sys, e: Event, r: Sys, t: Thread, times: seq<real>, start: real)
    requires s.Inv() && Step(s, e, r) && t in r.threads
    requires if t !in s.threads then times == [] else
             && s.threads[t].bursts == times && (s.threads[t].st == Executing ==> s.threads[t].burst == start)
    ensures r.threads[t].bursts == times + (if Stops(s, e, t) then [Clock(e) - start] else [])
    ensures r.threads[t].st == Executing ==> r.threads[t].burst == if Starts(s, e, t) then Clock(e) else start
  {
    hide *;
    if t in s.threads {
      StepTimes(s, e, r, t);
      TimedFacts(s.threads[t], r.threads[t], Stops(s, e, t), Starts(s, e, t), Clock(e), times, start);
    } else {
      NewTimes(s, e, r, t);
    }
  }

  lemma TimedFacts(a: Rec, b: Rec, stops: bool, starts: bool, now: real, times: seq<real>, start: real)
    requires Timed(a, b, stops, starts, now)
    requires a.bursts == times && (a.st == Executing ==> a.burst == start)
    ensures b.bursts == times + (if stops then [now - start] else [])
    ensures b.st == Executing ==> b.burst == if starts then now else start
  {
  }

  /** In every run whoever executes has had each time that it executed folded into its estimate
      exactly once, and the estimate of a live thread stays between 0 and the longest time. */
  lemma EstimateIsAverage(ss: seq<Sys>, es: seq<Event>, t: Thread, longest: real)
    requires Run(ss, es) && t in ss[|es|].threads && 0.0 <= ss[|es|].alpha <= 1.0 && 0.0 <= longest
    requires |ss| == |es| + 1
    requires forall i :: 0 <= i < |Lengths(ss, es, t)| ==> Lengths(ss, es, t)[i] <= longest
    ensures var s, times := ss[|es|], Lengths(ss, es, t);
            && (s.threads[t].st == Executing ==> s.threads[t].est == Weighted(s.alpha, times, |times|))
            && (s.threads[t].st != Exited ==> 0.0 <= s.threads[t].est <= longest)
  {
    hide *;
    BurstsAreTimes(ss, es, t);
    RunInv(ss, es);
    EstimateOf(ss[|es|], t, longest);
  }

  lemma ShortestStep(s: Sys, p: Process, sorted: seq<Thread>, now: real, r: Sys, t: Thread)
    requires s.Inv() && Step(s, NextAsked(p, sorted, now), r) && r.Inv()
    requires t in r.threads && r.threads[t].st == Ready && t.procesoId == p.id
    ensures sorted != [] && sorted[0] in r.threads && r.threads[sorted[0]].st == Executing
    ensures r.threads[sorted[0]].est <= r.threads[t].est && !r.threads[t].flag
  {
    hide *;
    OrderedAs(s, p, sorted, now, r);
    var a := s.Yielded(p, now);
    InProcs(a, p, sorted, now);
    ReadyListed(r, p, t);
    DropSubset(sorted, sorted[0].tid);
    FirstIsLeast(a, p, sorted, now, t);
  }

  lemma InProcs(a: Sys, p: Process, sorted: seq<Thread>, now: real)
    requires p in a.procs && sorted != [] && sorted[0] in a.threads
    ensures var r := a.Dispatch(p, sorted, now);
            p in r.procs && r.procs[p].ready == DropTid(sorted, sorted[0].tid)
  {
    hide DropTid;
  }

  lemma FirstIsLeast(a: Sys, p: Process, sorted: seq<Thread>, now: real, t: Thread)
    requires p in a.procs && a.Ordered(p, sorted) && sorted[0] in a.threads && t in sorted
    requires t in a.Dispatch(p, sorted, now).threads && a.Dispatch(p, sorted, now).threads[t].st == Ready
    ensures var r := a.Dispatch(p, sorted, now);
            && sorted[0] in r.threads && r.threads[sorted[0]].st == Executing
            && r.threads[sorted[0]].est <= r.threads[t].est && !r.threads[t].flag
  {
    var i :| 0 <= i < |sorted| && sorted[i] == t;
    assert t in Elements(a.procs[p].ready);
    hide DropTid;
  }

  lemma OrderedAs(s: Sys, p: Process, sorted: seq<Thread>, now: real, r: Sys)
    requires Step(s, NextAsked(p, sorted, now), r)
    ensures p in s.procs && (s.procs[p].exec != null ==> s.procs[p].exec in s.threads) && sorted != []
    ensures var a := s.Yielded(p, now);
            p in a.procs && a.Ordered(p, sorted) && sorted[0] in a.threads && r == a.Dispatch(p, sorted, now)
  {
    hide Sys.Dispatch, Sys.Yielded;
  }

  lemma ReadyListed(r: Sys, p: Process, t: Thread)
    requires r.Inv() && p in r.procs && t in r.threads && r.threads[t].st == Ready && t.procesoId == p.id
    ensures t in r.procs[p].ready
  {
    assert r.ProcOk(p);
    assert t in r.Of(p.id, Ready);
  }

  lemma {:induction false} DropSubset(q: seq<Thread>, tid: int)
    ensures forall t :: t in DropTid(q, tid) ==> t in q
  {
    if q != [] && q[0].tid != tid {
      DropSubset(q[1..], tid);
    }
  }

  lemma EstimateExact(s: Sys, t: Thread)
    requires s.Inv() && t in s.threads && (s.threads[t].st == Executing || !s.threads[t].flag)
    ensures var b := s.threads[t].bursts; s.threads[t].est == Weighted(s.alpha, b, |b|)
  {
    s.BurstAt(t);
    AverageIsWeighted(s.alpha, s.threads[t].bursts);
  }

  /** In every run the thread that suse_schedule_next starts has the least weighted average of
      the times executed among the ready threads of its process. */
  lemma NextIsShortest(ss: seq<Sys>, es: seq<Event>, t: Thread)
    requires Run(ss, es) && es != [] && es[|es| - 1].NextAsked? && t in ss[|es|].threads
    requires ss[|es|].threads[t].st == Ready && t.procesoId == es[|es| - 1].p.id
    ensures |ss| == |es| + 1 && es[|es| - 1].sorted != []
    ensures var next, alpha := es[|es| - 1].sorted[0], ss[|es|].alpha;
            && next in ss[|es|].threads && ss[|es|].threads[next].st == Executing
            && Weighted(alpha, Lengths(ss, es, next), |Lengths(ss, es, next)|) <=
               Weighted(alpha, Lengths(ss, es, t), |Lengths(ss, es, t)|)
  {
    hide *;
    var n := |es| - 1;
    RunLast(ss, es);
    RunInv(ss[..n + 1], es[..n]);
    RunInv(ss, es);
    var r, p, sorted, now := ss[|es|], es[n].p, es[n].sorted, es[n].now;
    ShortestStep(ss[n], p, sorted, now, r, t);
    var next := sorted[0];
    EstimateExact(r, next);
    EstimateExact(r, t);
    BurstsAreTimes(ss, es, next);
    BurstsAreTimes(ss, es, t);
  }
}
