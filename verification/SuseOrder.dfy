/** The order of new_queue, joinedBy and exit_queue, read off the requests of a run. */
module SuseOrder {
  import opened Sequences
  import opened SuseRecords
  import opened SuseState
  import opened SuseRuns
  import opened SuseTimes

  /** The threads that have asked to wait for `u`, in that order. */
  function Joiners(es: seq<Event>, u: Thread): seq<Thread> {
    if es == [] then [] else
    var e := es[|es| - 1];
    Joiners(es[..|es| - 1], u) + if e.Joined? && e.u == u then [e.t] else []
  }

  /** The threads that have been closed, in that order. */
  function Closings(es: seq<Event>): seq<Thread> {
    if es == [] then [] else
    var e := es[|es| - 1];
    Closings(es[..|es| - 1]) + if e.Closed? then [e.t] else []
  }

  /** The threads of `q` that are NEW, in the order of `q`. */
  ghost function StillNew(s: Sys, q: seq<Thread>): seq<Thread> {
    if q == [] then [] else
    var t := q[|q| - 1];
    StillNew(s, q[..|q| - 1]) + if t in s.threads && s.threads[t].st == New then [t] else []
  }

  /** Those that the request can make NEW: the thread that it creates, or the ones that had
      joined the thread that it closes. */
  function Newcomers(es: seq<Event>, e: Event): seq<Thread> {
    match e
    case MainCreated(t, _, _) => [t]
    case ThreadCreated(t, _) => [t]
    case Closed(t, _, _) => Joiners(es, t)
    case _ => []
  }

  /** The NEW threads in the order in which they last became NEW. */
  ghost function NewInOrder(ss: seq<Sys>, es: seq<Event>): seq<Thread>
    requires |ss| == |es| + 1
    decreases |es|
  {
    if es == [] then [] else
    var n := |es| - 1;
    StillNew(ss[n + 1], NewInOrder(ss[..n + 1], es[..n]) + Newcomers(es[..n], es[n]))
  }

  // ---- lists ----

  lemma {:induction false} StillNewConcat(s: Sys, a: seq<Thread>, b: seq<Thread>)
    ensures StillNew(s, a + b) == StillNew(s, a) + StillNew(s, b)
    decreases |b|
  {
    if b == [] {
      assert a + b == a;
    } else {
      var n := |b| - 1;
      StillNewConcat(s, a, b[..n]);
      assert (a + b)[..|a + b| - 1] == a + b[..n] && (a + b)[|a + b| - 1] == b[n];
    }
  }

  lemma {:induction false} AllStillNew(s: Sys, q: seq<Thread>)
    requires forall i :: 0 <= i < |q| ==> q[i] in s.threads && s.threads[q[i]].st == New
    ensures StillNew(s, q) == q
  {
    if q != [] {
      AllStillNew(s, q[..|q| - 1]);
    }
  }

  lemma {:induction false} NoneStillNew(s: Sys, q: seq<Thread>)
    requires forall i :: 0 <= i < |q| ==> q[i] in s.threads && s.threads[q[i]].st != New
    ensures StillNew(s, q) == []
  {
    if q != [] {
      NoneStillNew(s, q[..|q| - 1]);
    }
  }

  /** A list that has lost threads at both ends. */
  lemma MiddleStillNew(s: Sys, x: seq<Thread>, y: seq<Thread>, z: seq<Thread>)
    requires forall i :: 0 <= i < |x| ==> x[i] in s.threads && s.threads[x[i]].st != New
    requires forall i :: 0 <= i < |y| ==> y[i] in s.threads && s.threads[y[i]].st == New
    requires forall i :: 0 <= i < |z| ==> z[i] in s.threads && s.threads[z[i]].st != New
    ensures StillNew(s, x + y + z) == y
  {
    NoneStillNew(s, x);
    AllStillNew(s, y);
    NoneStillNew(s, z);
    StillNewConcat(s, x + y, z);
    StillNewConcat(s, x, y);
  }

  // ---- what a step does to the queues ----

  lemma QueueIsNew(s: Sys)
    requires s.Inv()
    ensures forall i :: 0 <= i < |s.newQueue| ==> s.newQueue[i] in s.threads && s.threads[s.newQueue[i]].st == New
    ensures Distinct(s.newQueue)
  {
    forall i | 0 <= i < |s.newQueue|
      ensures s.newQueue[i] in s.threads && s.threads[s.newQueue[i]].st == New
    {
      assert s.newQueue[i] in s.All(New);
    }
  }

  lemma DropLast(q: seq<Thread>, t: Thread)
    requires t !in q && NoTwins(q + [t], t)
    ensures DropThread(q + [t], t) == q
  {
    var r := q + [t];
    var i := DropThreadIs(r, t);
    assert forall k :: 0 <= k < |q| ==> r[k] == q[k];
    assert r[..|q|] == q;
  }

  /** A thread is created NEW, at the end of new_queue, and leaves it at once if and only if
      fewer than MAX_MULTIPROG threads are counted. */
  lemma CreationOrder(s: Sys, e: Event, r: Sys)
    requires s.Inv() && Step(s, e, r) && (e.MainCreated? || e.ThreadCreated?)
    ensures e.t !in s.threads && e.t in r.threads
    ensures r.threads[e.t].st == if s.actual >= s.limit then New else if e.MainCreated? then Executing else Ready
    ensures r.newQueue == if s.actual >= s.limit then s.newQueue + [e.t] else s.newQueue
    ensures r.exitQueue == s.exitQueue
  {
    QueueIsNew(s);
    var t, p := e.t, e.p;
    if e.MainCreated? {
      s.AddProcessKeeps(p);
      s.AddProcess(p).AddThreadKeeps(t, p);
      CreatedTwins(s.AddProcess(p).AddThread(t, p), t, p);
    } else {
      s.AddThreadKeeps(t, p);
      CreatedTwins(s.AddThread(t, p), t, p);
    }
    hide Sys.Inv, DropThread;
    DropLast(s.newQueue, t);
  }

  lemma CreatedTwins(s: Sys, t: Thread, p: Process)
    requires s.Inv() && t in s.threads && s.threads[t].st == New && p in s.procs && p.id == t.procesoId
    ensures NoTwins(s.newQueue, t)
  {
    s.ThreadFacts(t, p);
  }

  /** Releasing one joiner: to READY below the limit, else to the end of new_queue. */
  lemma UnjoinOrder(s: Sys, u: Thread, t: Thread, p: Process)
    requires t in s.threads && p in s.procs && s.threads[t].joinTo == [u]
    ensures var r := s.Unjoin(u, t, p);
            && r.threads.Keys == s.threads.Keys && r.actual == s.actual && r.limit == s.limit
            && r.exitQueue == s.exitQueue
            && r.newQueue == (if s.actual < s.limit then s.newQueue else s.newQueue + [t])
            && r.threads[t].st == (if s.actual < s.limit then Ready else New)
            && forall y :: y in s.threads && y != t ==> r.threads[y] == s.threads[y]
  {
    assert DropTid([u], u.tid) == [];
    hide DropThread;
  }

  /** All of `js` have been released, in their order. */
  ghost predicate Released(s: Sys, js: seq<Thread>, r: Sys) {
    && r.threads.Keys == s.threads.Keys && r.exitQueue == s.exitQueue && r.actual == s.actual && r.limit == s.limit
    && r.newQueue == s.newQueue + (if s.actual < s.limit then [] else js)
    && (forall i :: 0 <= i < |js| ==>
          js[i] in r.threads && r.threads[js[i]].st == if s.actual < s.limit then Ready else New)
    && forall y :: y in s.threads && y !in js ==> r.threads[y] == s.threads[y]
  }

  lemma ReleasedOne(s: Sys, u: Thread, t: Thread, p: Process)
    requires t in s.threads && p in s.procs && s.threads[t].joinTo == [u]
    ensures Released(s, [t], s.Unjoin(u, t, p))
  {
    UnjoinOrder(s, u, t, p);
    hide Sys.Unjoin;
  }

  lemma ReleasedMore(s: Sys, t: Thread, a: Sys, rest: seq<Thread>, r: Sys)
    requires Released(s, [t], a) && Released(a, rest, r) && t !in rest
    ensures Released(s, [t] + rest, r)
  {
    var js := [t] + rest;
    forall i | 0 <= i < |js|
      ensures js[i] in r.threads && r.threads[js[i]].st == if s.actual < s.limit then Ready else New
    {
      if i == 0 {
        assert [t][0] == t;
      } else {
        assert js[i] == rest[i - 1];
      }
    }
  }

  lemma StillJoined(s: Sys, u: Thread, t: Thread, a: Sys, rest: seq<Thread>)
    requires Released(s, [t], a) && t !in rest
    requires forall i :: 0 <= i < |rest| ==> rest[i] in s.threads && s.threads[rest[i]].joinTo == [u]
    ensures forall i :: 0 <= i < |rest| ==> rest[i] in a.threads && a.threads[rest[i]].joinTo == [u]
  {
  }

  lemma {:induction false} UnjoinAllOrder(s: Sys, u: Thread, js: seq<Thread>, p: Process)
    requires p in s.procs && Distinct(js)
    requires forall i :: 0 <= i < |js| ==> js[i] in s.threads && s.threads[js[i]].joinTo == [u]
    ensures Released(s, js, s.UnjoinAll(u, js, p))
    decreases |js|
  {
    if js != [] {
      var t, rest := js[0], js[1..];
      hide Released, Sys.Unjoin;
      var a := s.Unjoin(u, t, p);
      ReleasedOne(s, u, t, p);
      assert t !in rest && js == [t] + rest;
      StillJoined(s, u, t, a, rest);
      UnjoinAllOrder(a, u, rest, p);
      ReleasedMore(s, t, a, rest, s.UnjoinAll(u, js, p));
    }
  }

  lemma ReleasedIs(s: Sys, js: seq<Thread>, r: Sys)
    requires Released(s, js, r)
    ensures r.threads.Keys == s.threads.Keys && r.exitQueue == s.exitQueue && r.actual == s.actual && r.limit == s.limit
    ensures r.newQueue == s.newQueue + (if s.actual < s.limit then [] else js)
    ensures forall i :: 0 <= i < |js| ==>
              js[i] in r.threads && r.threads[js[i]].st == if s.actual < s.limit then Ready else New
  {
  }

  /** The threads `q` are in new_queue when one is closed that `js` have joined: below the limit
      these become READY, otherwise they are put at the end of `q`; and then the first of all
      is made READY. */
  ghost predicate Admitting(s: Sys, q: seq<Thread>, js: seq<Thread>, r: Sys) {
    if s.actual < s.limit then
      && (forall i :: 0 <= i < |js| ==> js[i] in r.threads && r.threads[js[i]].st == Ready)
      && FirstOut(q, r)
    else FirstOut(q + js, r)
  }

  ghost predicate FirstOut(c: seq<Thread>, r: Sys) {
    if c == [] then r.newQueue == [] else
      r.newQueue == c[1..] && c[0] in r.threads && r.threads[c[0]].st == Ready
  }

  lemma ClosingOrder(s: Sys, e: Event, r: Sys)
    requires s.Inv() && Step(s, e, r) && e.Closed?
    ensures e.t in s.threads && e.t in r.threads && r.threads[e.t].st == Exited && r.threads.Keys == s.threads.Keys
    ensures r.exitQueue == s.exitQueue + [e.t]
    ensures Admitting(s, s.newQueue, s.threads[e.t].joinedBy, r)
  {
    var t, p, q := e.t, e.p, e.q;
    ClosedIs(s, t, p, q, r);
    JoinersReady(s, t);
    QueueIsNew(s);
    var js := s.threads[t].joinedBy;
    CountedIs(s);
    hide *;
    UnjoinAllOrder(s, t, js, p);
    s.LeavingIs(t, p);
    var a := s.UnjoinAll(t, js, p);
    ReleasedIs(s, js, a);
    EndedOrder(a, t, p);
    AdmittedOrder(s.Leaving(t, p), q);
    ClosingDone(s, t, a, s.Leaving(t, p), r);
    IsAdmitting(s, s.newQueue, js, s.Leaving(t, p).newQueue, r);
  }

  lemma IsAdmitting(s: Sys, q: seq<Thread>, js: seq<Thread>, c: seq<Thread>, r: Sys)
    requires c == q + (if s.actual < s.limit then [] else js)
    requires r.newQueue == (if c == [] then [] else c[1..])
    requires c != [] ==> c[0] in r.threads && r.threads[c[0]].st == Ready
    requires s.actual < s.limit ==> forall i :: 0 <= i < |js| ==> js[i] in r.threads && r.threads[js[i]].st == Ready
    ensures Admitting(s, q, js, r)
  {
    assert q + [] == q;
  }

  lemma JoinersReady(s: Sys, t: Thread)
    requires s.Inv() && t in s.threads && s.threads[t].st != Exited
    ensures Distinct(s.threads[t].joinedBy)
    ensures forall i :: 0 <= i < |s.threads[t].joinedBy| ==>
              var y := s.threads[t].joinedBy[i];
              y in s.threads && s.threads[y].joinTo == [t] && s.threads[y].st == Blocked
    ensures s.threads[t].st != Blocked ==> t !in s.threads[t].joinedBy
  {
    assert s.JoinOk(t, null, []);
    forall i | 0 <= i < |s.threads[t].joinedBy|
      ensures var y := s.threads[t].joinedBy[i];
              y in s.threads && s.threads[y].joinTo == [t] && s.threads[y].st == Blocked
    {
      JoinersOf(s, t, s.threads[t].joinedBy[i]);
    }
  }

  lemma CountedIs(s: Sys)
    requires s.Inv()
    ensures s.actual <= s.limit
  {
  }

  lemma EndedOrder(s: Sys, t: Thread, p: Process)
    requires t in s.threads && p in s.procs
    ensures var r := s.Ended(t, p);
            && r.newQueue == s.newQueue && r.exitQueue == s.exitQueue + [t] && r.threads.Keys == s.threads.Keys
            && r.actual == s.actual - 1 && r.limit == s.limit && r.threads[t].st == Exited
            && forall y :: y in s.threads && y != t ==> r.threads[y] == s.threads[y]
  {
    hide DropTid;
  }

  lemma AdmittedOrder(s: Sys, q: Process?)
    requires s.actual < s.limit && (s.newQueue != [] ==> s.newQueue[0] in s.threads && q != null && q in s.procs)
    ensures var r := s.Admitted(q);
            && r.newQueue == (if s.newQueue == [] then [] else s.newQueue[1..]) && r.exitQueue == s.exitQueue
            && (s.newQueue != [] ==> r.threads == s.threads[s.newQueue[0] := s.threads[s.newQueue[0]].(st := Ready)])
            && (s.newQueue == [] ==> r.threads == s.threads)
  {
  }

  lemma ClosingDone(s: Sys, t: Thread, a: Sys, l: Sys, r: Sys)
    requires t in s.threads && s.threads[t].st in {Ready, Executing}
    requires a.threads.Keys == s.threads.Keys == l.threads.Keys
    requires forall i :: 0 <= i < |s.newQueue| ==> s.newQueue[i] in s.threads && s.threads[s.newQueue[i]].st == New
    requires var js := s.threads[t].joinedBy;
             && t !in js && (forall i :: 0 <= i < |js| ==> js[i] in s.threads)
             && l.newQueue == s.newQueue + (if s.actual < s.limit then [] else js)
             && forall i :: 0 <= i < |js| ==> a.threads[js[i]].st == if s.actual < s.limit then Ready else New
    requires l.threads[t].st == Exited && forall y :: y in a.threads && y != t ==> l.threads[y] == a.threads[y]
    requires l.newQueue != [] ==> l.newQueue[0] in l.threads
    requires if l.newQueue == [] then r.threads == l.threads
             else r.threads == l.threads[l.newQueue[0] := l.threads[l.newQueue[0]].(st := Ready)]
    ensures t in r.threads && r.threads[t].st == Exited && r.threads.Keys == s.threads.Keys
    ensures var js := s.threads[t].joinedBy;
            s.actual < s.limit ==> forall i :: 0 <= i < |js| ==> js[i] in r.threads && r.threads[js[i]].st == Ready
    ensures l.newQueue != [] ==> l.newQueue[0] in r.threads && r.threads[l.newQueue[0]].st == Ready
  {
    if l.newQueue != [] {
      assert l.newQueue[0] != t;
    }
  }

  /** The other requests leave new_queue and exit_queue alone. */
  lemma OtherOrder(s: Sys, e: Event, r: Sys)
    requires Step(s, e, r) && !e.MainCreated? && !e.ThreadCreated? && !e.Closed?
    ensures r.newQueue == s.newQueue && r.exitQueue == s.exitQueue
  {
    hide DropThread, DropTid;
  }

  // ---- joiners ----

  lemma {:induction false} UnjoinAllJoiners(s: Sys, u: Thread, js: seq<Thread>, p: Process, t: Thread)
    requires p in s.procs && (forall i :: 0 <= i < |js| ==> js[i] in s.threads) && t in s.threads
    ensures t in s.UnjoinAll(u, js, p).threads && s.UnjoinAll(u, js, p).threads[t].joinedBy == s.threads[t].joinedBy
    decreases |js|
  {
    if js != [] {
      UnjoinJoiners(s, u, js[0], p, t);
      hide Sys.Unjoin;
      UnjoinAllJoiners(s.Unjoin(u, js[0], p), u, js[1..], p, t);
    }
  }

  lemma UnjoinJoiners(s: Sys, u: Thread, x: Thread, p: Process, t: Thread)
    requires p in s.procs && x in s.threads && t in s.threads
    ensures t in s.Unjoin(u, x, p).threads && s.Unjoin(u, x, p).threads[t].joinedBy == s.threads[t].joinedBy
  {
    hide DropThread, DropTid;
  }

  lemma ClosedJoiners(s: Sys, u: Thread, p: Process, q: Process?, r: Sys, t: Thread)
    requires Step(s, Closed(u, p, q), r) && t in s.threads
    ensures t in r.threads && r.threads[t].joinedBy == s.threads[t].joinedBy
  {
    ClosedIs(s, u, p, q, r);
    s.LeavingIs(u, p);
    UnjoinAllJoiners(s, u, s.threads[u].joinedBy, p, t);
    hide Step, Sys.UnjoinAll, DropThread, DropTid;
  }

  lemma NextJoiners(s: Sys, p: Process, sorted: seq<Thread>, now: real, r: Sys, t: Thread)
    requires Step(s, NextAsked(p, sorted, now), r) && t in s.threads
    ensures t in r.threads && r.threads[t].joinedBy == s.threads[t].joinedBy
  {
    hide DropTid;
  }

  lemma StepJoiners(s: Sys, e: Event, r: Sys, u: Thread)
    requires Step(s, e, r) && u in s.threads
    ensures u in r.threads
    ensures r.threads[u].joinedBy == s.threads[u].joinedBy + if e.Joined? && e.u == u then [e.t] else []
  {
    match e
    case NextAsked(p, sorted, now) => NextJoiners(s, p, sorted, now, r, u);
    case Closed(t, p, q) => ClosedJoiners(s, t, p, q, r, u);
    case Joined(t, v, p, now) => JoinJoiners(s, t, v, p, now, r, u);
    case Signalled(m, p) => hide DropThread;
    case MainCreated(t, p, now) => hide DropThread;
    case ThreadCreated(t, p) => hide DropThread;
    case _ =>
  }

  lemma JoinJoiners(s: Sys, t: Thread, v: Thread, p: Process, now: real, r: Sys, u: Thread)
    requires Step(s, Joined(t, v, p, now), r) && u in s.threads
    ensures u in r.threads && r.threads[u].joinedBy == s.threads[u].joinedBy + if v == u then [t] else []
  {
  }

  lemma NewJoiners(s: Sys, e: Event, r: Sys, u: Thread)
    requires Step(s, e, r) && u !in s.threads
    ensures !(e.Joined? && e.u == u) && (u in r.threads ==> r.threads[u].joinedBy == [])
  {
    NewThreads(s, e, r);
    hide DropThread;
  }

  lemma JoinersNext(es: seq<Event>, u: Thread)
    requires es != []
    ensures var n := |es| - 1;
            Joiners(es, u) == Joiners(es[..n], u) + if es[n].Joined? && es[n].u == u then [es[n].t] else []
    ensures var n := |es| - 1; Closings(es) == Closings(es[..n]) + if es[n].Closed? then [es[n].t] else []
  {
  }

  lemma NothingAsked(s: Sys, u: Thread)
    requires Initial(s)
    ensures u !in s.threads && Joiners([], u) == [] && Closings([]) == [] && s.newQueue == [] && s.exitQueue == []
  {
  }

  /** In every run joinedBy lists the threads that have joined this one, in that order. */
  lemma {:induction false} JoinedInOrder(ss: seq<Sys>, es: seq<Event>, u: Thread)
    requires Run(ss, es)
    ensures |ss| == |es| + 1
    ensures Joiners(es, u) == if u in ss[|es|].threads then ss[|es|].threads[u].joinedBy else []
    decreases |es|
  {
    LengthIs(ss, es);
    if es == [] {
      NothingAsked(ss[0], u);
    } else {
      var n := |es| - 1;
      hide *;
      RunLast(ss, es);
      JoinedInOrder(ss[..n + 1], es[..n], u);
      JoinersNext(es, u);
      NewThreads(ss[n], es[n], ss[n + 1]);
      if u in ss[n].threads {
        StepJoiners(ss[n], es[n], ss[n + 1], u);
      } else {
        NewJoiners(ss[n], es[n], ss[n + 1], u);
      }
    }
  }

  // ---- new_queue and exit_queue ----

  lemma NewNext(ss: seq<Sys>, es: seq<Event>)
    requires |ss| == |es| + 1 && es != []
    ensures var n := |es| - 1;
            NewInOrder(ss, es) == StillNew(ss[n + 1], NewInOrder(ss[..n + 1], es[..n]) + Newcomers(es[..n], es[n]))
  {
  }

  lemma NewcomersAre(es: seq<Event>, e: Event)
    ensures Newcomers(es, e) ==
            if e.MainCreated? || e.ThreadCreated? then [e.t] else if e.Closed? then Joiners(es, e.t) else []
  {
  }

  /** What is left of new_queue and those that the request adds. */
  lemma QueueNext(s: Sys, e: Event, r: Sys, js: seq<Thread>)
    requires s.Inv() && r.Inv() && Step(s, e, r)
    requires e.Closed? ==> e.t in s.threads && js == s.threads[e.t].joinedBy
    requires !e.Closed? ==> js == if e.MainCreated? || e.ThreadCreated? then [e.t] else []
    ensures r.newQueue == StillNew(r, s.newQueue + js)
    ensures r.exitQueue == s.exitQueue + if e.Closed? then [e.t] else []
  {
    hide *;
    QueueIsNew(r);
    if e.Closed? {
      ClosingOrder(s, e, r);
      ClosingLeft(s, js, r);
    } else if e.MainCreated? || e.ThreadCreated? {
      CreationOrder(s, e, r);
      CreationLeft(s, e.t, r);
    } else {
      OtherOrder(s, e, r);
      assert s.newQueue + js == s.newQueue;
      AllStillNew(r, r.newQueue);
    }
  }

  lemma CreationLeft(s: Sys, t: Thread, r: Sys)
    requires forall i :: 0 <= i < |r.newQueue| ==> r.newQueue[i] in r.threads && r.threads[r.newQueue[i]].st == New
    requires t in r.threads && (s.actual < s.limit ==> r.threads[t].st != New)
    requires r.newQueue == if s.actual >= s.limit then s.newQueue + [t] else s.newQueue
    ensures r.newQueue == StillNew(r, s.newQueue + [t])
  {
    hide StillNew;
    if s.actual < s.limit {
      MiddleStillNew(r, [], s.newQueue, [t]);
      assert [] + s.newQueue + [t] == s.newQueue + [t];
    } else {
      AllStillNew(r, r.newQueue);
    }
  }

  lemma ClosingLeft(s: Sys, js: seq<Thread>, r: Sys)
    requires forall i :: 0 <= i < |r.newQueue| ==> r.newQueue[i] in r.threads && r.threads[r.newQueue[i]].st == New
    requires Admitting(s, s.newQueue, js, r)
    ensures r.newQueue == StillNew(r, s.newQueue + js)
  {
    hide StillNew;
    if s.actual < s.limit {
      FirstGone(s.newQueue, js, r);
    } else {
      FirstGone(s.newQueue + js, [], r);
      assert s.newQueue + js + [] == s.newQueue + js;
    }
  }

  lemma FirstGone(c: seq<Thread>, z: seq<Thread>, r: Sys)
    requires forall i :: 0 <= i < |r.newQueue| ==> r.newQueue[i] in r.threads && r.threads[r.newQueue[i]].st == New
    requires FirstOut(c, r) && forall i :: 0 <= i < |z| ==> z[i] in r.threads && r.threads[z[i]].st != New
    ensures StillNew(r, c + z) == r.newQueue
  {
    hide StillNew;
    if c == [] {
      MiddleStillNew(r, [], [], z);
      assert [] + [] + z == c + z;
    } else {
      MiddleStillNew(r, [c[0]], c[1..], z);
      assert [c[0]] + c[1..] + z == c + z;
    }
  }

  /** In every run new_queue lists the NEW threads in the order in which they last became NEW,
      and exit_queue those closed in the order of closing. */
  lemma {:induction false} QueuesInOrder(ss: seq<Sys>, es: seq<Event>)
    requires Run(ss, es)
    ensures |ss| == |es| + 1
    ensures ss[|es|].newQueue == NewInOrder(ss, es) && ss[|es|].exitQueue == Closings(es)
    decreases |es|
  {
    LengthIs(ss, es);
    if es == [] {
      Beginning(ss);
    } else {
      var n := |es| - 1;
      hide *;
      RunLast(ss, es);
      RunInv(ss[..n + 1], es[..n]);
      RunInv(ss, es);
      QueuesInOrder(ss[..n + 1], es[..n]);
      NewNext(ss, es);
      NewcomersAre(es[..n], es[n]);
      JoinersNextClosed(es);
      if es[n].Closed? {
        JoinedInOrder(ss[..n + 1], es[..n], es[n].t);
        ClosingOrder(ss[n], es[n], ss[n + 1]);
      }
      QueueNext(ss[n], es[n], ss[n + 1], Newcomers(es[..n], es[n]));
    }
  }

  lemma Beginning(ss: seq<Sys>)
    requires |ss| == 1 && Initial(ss[0])
    ensures ss[0].newQueue == NewInOrder(ss, []) && ss[0].exitQueue == Closings([])
  {
  }

  lemma JoinersNextClosed(es: seq<Event>)
    requires es != []
    ensures var n := |es| - 1; Closings(es) == Closings(es[..n]) + if es[n].Closed? then [es[n].t] else []
  {
  }

  /** So a close admits the thread that became NEW first.  Those that had joined the closed
      thread come last, in the order in which they joined it, and only when the limit was
      reached; otherwise they are READY. */
  lemma CloseAdmitsFirst(ss: seq<Sys>, es: seq<Event>)
    requires Run(ss, es) && es != [] && es[|es| - 1].Closed?
    ensures |ss| == |es| + 1
    ensures var n := |es| - 1;
            Admitting(ss[n], NewInOrder(ss[..n + 1], es[..n]), Joiners(es[..n], es[n].t), ss[n + 1])
    ensures var r := ss[|es|];
            forall i :: 0 <= i < |r.newQueue| ==> r.newQueue[i] in r.threads && r.threads[r.newQueue[i]].st == New
  {
    var n := |es| - 1;
    hide *;
    RunLast(ss, es);
    RunInv(ss[..n + 1], es[..n]);
    RunInv(ss, es);
    QueuesInOrder(ss[..n + 1], es[..n]);
    JoinedInOrder(ss[..n + 1], es[..n], es[n].t);
    ClosingOrder(ss[n], es[n], ss[n + 1]);
    QueueIsNew(ss[n + 1]);
  }
}
