/** What a semaphore has gone through in a run. */
module SuseAccounts {
  import opened SuseRecords
  import opened SuseState
  import opened SuseRuns

  /** Signals that raised the semaphore's value: those that found it below MAX. */
  ghost function Accepted(ss: seq<Sys>, es: seq<Event>, m: Semaphore): nat
    requires |ss| == |es| + 1
    decreases |es|
  {
    if es == [] then 0 else
    var n := |es| - 1;
    Accepted(ss[..n + 1], es[..n], m)
    + if es[n].Signalled? && es[n].m == m && m in ss[n].sems && ss[n].sems[m].value != m.max then 1 else 0
  }

  function Waits(es: seq<Event>, m: Semaphore): nat {
    if es == [] then 0 else
    Waits(es[..|es| - 1], m) + if es[|es| - 1].Waited? && es[|es| - 1].m == m then 1 else 0
  }

  /** The threads that had to wait there, in the order in which they came. */
  ghost function Blocked(ss: seq<Sys>, es: seq<Event>, m: Semaphore): seq<Thread>
    requires |ss| == |es| + 1
    decreases |es|
  {
    if es == [] then [] else
    var n := |es| - 1;
    Blocked(ss[..n + 1], es[..n], m)
    + if es[n].Waited? && es[n].m == m && m in ss[n].sems && ss[n].sems[m].value <= 0 then [es[n].t] else []
  }

  /** The threads that signals have woken, in that order. */
  ghost function Woken(ss: seq<Sys>, es: seq<Event>, m: Semaphore): seq<Thread>
    requires |ss| == |es| + 1
    decreases |es|
  {
    if es == [] then [] else
    var n := |es| - 1;
    Woken(ss[..n + 1], es[..n], m)
    + if es[n].Signalled? && es[n].m == m && m in ss[n].sems && ss[n].sems[m].value != m.max
      && ss[n].sems[m].blocked != []
      then [ss[n].sems[m].blocked[0]] else []
  }

  lemma {:induction false} UnjoinAllSems(s: Sys, u: Thread, js: seq<Thread>, p: Process)
    requires p in s.procs && forall i :: 0 <= i < |js| ==> js[i] in s.threads
    ensures s.UnjoinAll(u, js, p).sems == s.sems
    decreases |js|
  {
    if js != [] {
      UnjoinAllSems(s.Unjoin(u, js[0], p), u, js[1..], p);
    }
  }

  /** Only waits and signals touch semaphores. */
  lemma SemsKept(s: Sys, e: Event, r: Sys)
    requires Step(s, e, r) && !e.Waited? && !e.Signalled?
    ensures r.sems == s.sems
  {
    if e.Closed? {
      s.LeavingIs(e.t, e.p);
      UnjoinAllSems(s, e.t, s.threads[e.t].joinedBy, e.p);
      hide Sys.UnjoinAll;
    }
  }

  lemma SemStep(s: Sys, e: Event, r: Sys, m: Semaphore)
    requires Step(s, e, r) && m in s.sems
    ensures m in r.sems
    ensures var a, b := s.sems[m], r.sems[m];
            var signalled, waited := e.Signalled? && e.m == m && a.value != m.max, e.Waited? && e.m == m;
            && b.signals == a.signals + (if signalled then 1 else 0)
            && b.waits == a.waits + (if waited then 1 else 0)
            && b.asked == a.asked + (if waited && a.value <= 0 then [e.t] else [])
            && b.woken == a.woken + (if signalled && a.blocked != [] then [a.blocked[0]] else [])
  {
    if !e.Waited? && !e.Signalled? {
      SemsKept(s, e, r);
    }
  }

  lemma {:induction false} Recorded(ss: seq<Sys>, es: seq<Event>, m: Semaphore)
    requires Run(ss, es) && m in ss[0].sems
    ensures m in ss[|es|].sems
    ensures var e := ss[|es|].sems[m];
            e.signals == Accepted(ss, es, m) && e.waits == Waits(es, m) && e.asked == Blocked(ss, es, m)
              && e.woken == Woken(ss, es, m)
    decreases |es|
  {
    if es == [] {
      Unrecorded(ss[0], m);
    } else {
      var n := |es| - 1;
      hide *;
      RunLast(ss, es);
      Recorded(ss[..n + 1], es[..n], m);
      LastEvent(ss, es, m);
      SemStep(ss[n], es[n], ss[n + 1], m);
    }
  }

  lemma Unrecorded(s: Sys, m: Semaphore)
    requires Initial(s) && m in s.sems
    ensures var e := s.sems[m]; e.signals == 0 && e.waits == 0 && e.asked == [] && e.woken == []
  {
  }

  lemma LastEvent(ss: seq<Sys>, es: seq<Event>, m: Semaphore)
    requires |ss| == |es| + 1 && es != [] && m in ss[|es| - 1].sems
    ensures var n := |es| - 1; var a, e := ss[n].sems[m], es[n];
            var signalled, waited := e.Signalled? && e.m == m && a.value != m.max, e.Waited? && e.m == m;
            && Accepted(ss, es, m) == Accepted(ss[..n + 1], es[..n], m) + (if signalled then 1 else 0)
            && Waits(es, m) == Waits(es[..n], m) + (if waited then 1 else 0)
            && Blocked(ss, es, m) == Blocked(ss[..n + 1], es[..n], m) + (if waited && a.value <= 0 then [e.t] else [])
            && Woken(ss, es, m) == Woken(ss[..n + 1], es[..n], m) + (if signalled && a.blocked != [] then [a.blocked[0]]
               else [])
  {
  }

  /** In every run a semaphore's value is INIT plus the signals accepted minus the waits, at
      most MAX; as many threads are blocked there as the value is below 0; and threads are
      woken in the order in which they were blocked: those blocked are the ones of all who had
      to wait that have not been woken yet. */
  lemma SemaphoreAccounts(ss: seq<Sys>, es: seq<Event>, m: Semaphore)
    requires Run(ss, es) && m in ss[0].sems
    ensures m in ss[|es|].sems
    ensures var e := ss[|es|].sems[m];
            && e.value == m.init + Accepted(ss, es, m) - Waits(es, m) <= m.max
            && |e.blocked| == (if e.value < 0 then -e.value else 0)
            && Blocked(ss, es, m) == Woken(ss, es, m) + e.blocked
            && forall t :: t in e.blocked ==> t in ss[|es|].threads && ss[|es|].threads[t].st == Status.Blocked
  {
    Recorded(ss, es, m);
    RunInv(ss, es);
    assert ss[|es|].SemOk(m);
  }
}
