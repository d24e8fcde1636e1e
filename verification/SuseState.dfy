/** The scheduler's state as a value, and its transitions. */
module SuseState {
  import opened Sequences
  import opened SuseRecords

  datatype Rec = Rec(st: Status, burst: real, est: real, flag: bool, bursts: seq<real>, joinedBy: seq<Thread>,
                     joinTo: seq<Thread>)

  datatype Proc = Proc(ults: seq<Thread>, ready: seq<Thread>, exec: Thread?, permits: int)

  datatype Sem = Sem(value: int, blocked: seq<Thread>, signals: nat, waits: nat, asked: seq<Thread>, woken: seq<Thread>)

  // ---- lists ----

  /** `list_remove_by_condition` with a test on the tid alone. */
  function DropTid(q: seq<Thread>, tid: int): seq<Thread> {
    if q == [] then [] else if q[0].tid == tid then q[1..] else [q[0]] + DropTid(q[1..], tid)
  }

  /** The same with a test on the tid and the process. */
  function DropThread(q: seq<Thread>, t: Thread): seq<Thread> {
    if q == [] then []
    else if q[0].tid == t.tid && q[0].procesoId == t.procesoId then q[1..]
    else [q[0]] + DropThread(q[1..], t)
  }

  ghost predicate NoTwins(q: seq<Thread>, t: Thread) {
    forall i :: 0 <= i < |q| && q[i].tid == t.tid && q[i].procesoId == t.procesoId ==> q[i] == t
  }

  /** When no other thread in the list has the same tid and process, exactly the first
      occurrence of the thread goes. */
  lemma {:induction false} DropThreadIs(q: seq<Thread>, t: Thread) returns (i: nat)
    requires NoTwins(q, t) && t in q
    ensures i < |q| && q[i] == t && t !in q[..i] && DropThread(q, t) == q[..i] + q[i + 1..]
  {
    if q[0] == t {
      i := 0;
    } else {
      assert q == [q[0]] + q[1..];
      i := DropThreadIs(q[1..], t);
      DropShift(q, i);
      i := i + 1;
    }
  }

  lemma DropShift(q: seq<Thread>, i: nat)
    requires i + 1 < |q|
    ensures q[..i + 1] == [q[0]] + q[1..][..i]
    ensures [q[0]] + (q[1..][..i] + q[1..][i + 1..]) == q[..i + 1] + q[i + 2..]
  {
  }

  lemma {:induction false} DropTidIs(q: seq<Thread>, t: Thread)
    requires NoTwins(q, t) && (forall i :: 0 <= i < |q| ==> q[i].procesoId == t.procesoId)
    ensures DropTid(q, t.tid) == DropThread(q, t)
  {
    if q != [] && q[0].tid != t.tid {
      DropTidIs(q[1..], t);
    }
  }

  /** A list without duplicates loses exactly that thread. */
  lemma DropEnumerates(q: seq<Thread>, ts: set<Thread>, t: Thread)
    requires Enumerates(q, ts) && NoTwins(q, t) && t in ts
    ensures Enumerates(DropThread(q, t), ts - {t}) && |DropThread(q, t)| == |q| - 1
  {
    var i := DropThreadIs(q, t);
    var r := q[..i] + q[i + 1..];
    forall p | p in ts - {t} ensures p in r {
      var j :| 0 <= j < |q| && q[j] == p;
      assert r[if j < i then j else j - 1] == p;
    }
  }

  lemma AppendEnumerates(q: seq<Thread>, ts: set<Thread>, t: Thread)
    requires Enumerates(q, ts) && t !in ts
    ensures Enumerates(q + [t], ts + {t})
  {
    EnumeratesInsert(q, ts, |q|, t);
    assert q[..|q|] + [t] + q[|q|..] == q + [t];
  }

  // ---- estimates ----

  /** The exponential average of a history of bursts, from an initial estimate of 0. */
  function Average(alpha: real, bursts: seq<real>): real {
    if bursts == [] then 0.0
    else alpha * bursts[|bursts| - 1] + (1.0 - alpha) * Average(alpha, bursts[..|bursts| - 1])
  }

  function Power(x: real, n: nat): real {
    if n == 0 then 1.0 else x * Power(x, n - 1)
  }

  /** Burst `i` of `n` weighs alpha (1 - alpha)^(n - 1 - i). */
  function Weighted(alpha: real, bursts: seq<real>, n: nat): real
    requires |bursts| <= n
  {
    if bursts == [] then 0.0
    else Weighted(alpha, bursts[..|bursts| - 1], n) + alpha * Power(1.0 - alpha, n - |bursts|) * bursts[|bursts| - 1]
  }

  lemma ShiftTerm(y: real, a: real, p: real, x: real, w: real)
    ensures y * w + a * (y * p) * x == y * (w + a * p * x)
  {
    assert a * (y * p) == y * (a * p);
    assert y * (a * p) * x == y * (a * p * x);
  }

  lemma {:induction false} WeightedShift(alpha: real, bursts: seq<real>, n: nat)
    requires |bursts| <= n
    ensures Weighted(alpha, bursts, n + 1) == (1.0 - alpha) * Weighted(alpha, bursts, n)
  {
    if bursts != [] {
      var k, x := n - |bursts|, bursts[|bursts| - 1];
      WeightedShift(alpha, bursts[..|bursts| - 1], n);
      ShiftTerm(1.0 - alpha, alpha, Power(1.0 - alpha, k), x, Weighted(alpha, bursts[..|bursts| - 1], n));
    }
  }

  /** The estimate is the alpha-weighted sum over the burst history. */
  lemma {:induction false} AverageIsWeighted(alpha: real, bursts: seq<real>)
    ensures Average(alpha, bursts) == Weighted(alpha, bursts, |bursts|)
  {
    if bursts != [] {
      var n := |bursts| - 1;
      AverageIsWeighted(alpha, bursts[..n]);
      WeightedShift(alpha, bursts[..n], n);
    }
  }

  /** It stays between 0 and the longest burst. */
  lemma {:induction false} AverageBounds(alpha: real, bursts: seq<real>, longest: real)
    requires 0.0 <= alpha <= 1.0 && 0.0 <= longest
    requires forall i :: 0 <= i < |bursts| ==> 0.0 <= bursts[i] <= longest
    ensures 0.0 <= Average(alpha, bursts) <= longest
  {
    if bursts != [] {
      var n := |bursts| - 1;
      AverageBounds(alpha, bursts[..n], longest);
      Mix(alpha, 1.0 - alpha, bursts[n], Average(alpha, bursts[..n]), longest);
    }
  }

  lemma Scale(a: real, x: real, m: real)
    requires 0.0 <= a && 0.0 <= x <= m
    ensures 0.0 <= a * x <= a * m
  {
    assert a * (m - x) >= 0.0;
    assert a * (m - x) == a * m - a * x;
  }

  lemma Split(a: real, b: real, m: real)
    requires a + b == 1.0
    ensures a * m + b * m == m
  {
    assert b == 1.0 - a;
    assert b * m == m - a * m;
  }

  lemma Mix(a: real, b: real, x: real, y: real, m: real)
    requires 0.0 <= a && 0.0 <= b && a + b == 1.0 && 0.0 <= x <= m && 0.0 <= y <= m
    ensures 0.0 <= a * x + b * y <= m
  {
    var p, q, r, s := a * x, b * y, a * m, b * m;
    assert 0.0 <= p <= r by { Scale(a, x, m); }
    assert 0.0 <= q <= s by { Scale(b, y, m); }
    assert r + s == m by { Split(a, b, m); }
    assert 0.0 <= p + q <= m;
  }

  lemma {:induction false} DropKeeps(q: seq<Thread>, t: Thread, u: Thread)
    requires u in q && !(u.tid == t.tid && u.procesoId == t.procesoId)
    ensures u in DropThread(q, t)
  {
    if u != q[0] {
      assert u in q[1..];
      if !(q[0].tid == t.tid && q[0].procesoId == t.procesoId) {
        DropKeeps(q[1..], t, u);
      }
    }
  }

  /** `estimar_rafaga`, on a thread that has run since its last estimate. */
  function Estimate(alpha: real, r: Rec): Rec {
    if r.flag then r.(flag := false, est := Blend(alpha, r.burst, r.est)) else r
  }

  function Blend(alpha: real, burst: real, est: real): real {
    alpha * burst + (1.0 - alpha) * est
  }

  function Finished(r: Rec, k: Status, length: real): Rec {
    r.(st := k, burst := length, bursts := r.bursts + [length])
  }

  /** What a thread takes of the multiprogramming degree. */
  function Weight(r: Rec): int {
    if r.st in {Ready, Executing, Blocked} then 1 else 0
  }

  // ---- the state ----

  datatype Sys = Sys(
    threads: map<Thread, Rec>, procs: map<Process, Proc>, sems: map<Semaphore, Sem>,
    newQueue: seq<Thread>, blockedQueue: seq<Thread>, exitQueue: seq<Thread>,
    actual: int, limit: int, alpha: real)
  {
    ghost function Of(id: int, k: Status): set<Thread> {
      set t | t in threads && t.procesoId == id && threads[t].st == k
    }

    ghost function Live(id: int): set<Thread> {
      set t | t in threads && t.procesoId == id && threads[t].st != Exited
    }

    ghost function All(k: Status): set<Thread> {
      set t | t in threads && threads[t].st == k
    }

    /** The threads that the multiprogramming limit is about. */
    ghost function Active(): set<Thread> {
      set t | t in threads && threads[t].st in {Ready, Executing, Blocked}
    }

    // ---- invariants ----

    ghost predicate Names() {
      && (forall p, q :: p in procs && q in procs && p.id == q.id ==> p == q)
      && (forall t :: t in threads ==> exists p :: p in procs && p.id == t.procesoId)
      && (forall t, u | t in threads && u in threads && t.tid == u.tid && t.procesoId == u.procesoId ::
            threads[t].st != Exited && threads[u].st != Exited ==> t == u)
    }

    ghost predicate ProcOk(p: Process)
      requires p in procs
    {
      && Enumerates(procs[p].ults, Live(p.id))
      && Enumerates(procs[p].ready, Of(p.id, Ready))
      && procs[p].permits == |procs[p].ready|
      && Of(p.id, Executing) == if procs[p].exec == null then {} else {procs[p].exec}
    }

    /** READY_LIST and new_queue hold exactly the READY threads of their process and the NEW
        threads of the system, once each; EXEC_THREAD is the only executing thread of its
        process; the semaphore counts the READY_LIST. */
    ghost predicate Queues() {
      && (forall p :: p in procs ==> ProcOk(p))
      && Enumerates(newQueue, All(New))
      && (forall t :: t in threads && threads[t].st == Blocked ==> t in blockedQueue)
    }

    ghost predicate Counted() {
      |Active()| <= actual <= limit
    }

    ghost predicate SemOk(m: Semaphore)
      requires m in sems
    {
      var e := sems[m];
      && e.value == m.init + e.signals - e.waits && e.value <= m.max
      && |e.blocked| == (if e.value < 0 then -e.value else 0)
      && e.asked == e.woken + e.blocked
      && Distinct(e.blocked)
      && (forall t :: t in e.blocked ==> t in threads && threads[t].st == Blocked && threads[t].joinTo == [])
    }

    ghost predicate Semaphores() {
      && (forall m :: m in sems ==> SemOk(m))
      && (forall m, n, t :: m in sems && n in sems && m != n && t in sems[m].blocked ==> t !in sems[n].blocked)
    }

    ghost predicate Waiting(t: Thread) {
      exists m :: m in sems && t in sems[m].blocked
    }

    function By(u: Thread, x: Thread?, rest: seq<Thread>): seq<Thread>
      requires u in threads
    {
      if u == x then rest else threads[u].joinedBy
    }

    /** A thread has a target exactly while it is blocked by a join; the target has not exited
        and knows its joiner. */
    ghost predicate TargetOk(t: Thread, x: Thread?, rest: seq<Thread>)
      requires t in threads
    {
      var r := threads[t];
      && |r.joinTo| <= 1
      && (r.joinTo != [] ==>
            var u := r.joinTo[0];
            r.st == Blocked && u in threads && threads[u].st != Exited && u.procesoId == t.procesoId
              && t in By(u, x, rest))
      && (r.st == Blocked && r.joinTo == [] ==> Waiting(t))
    }

    /** Those in the joinedBy of a live thread have it as their target. */
    ghost predicate JoinersOk(t: Thread, x: Thread?, rest: seq<Thread>)
      requires t in threads
    {
      threads[t].st != Exited ==>
        Distinct(By(t, x, rest)) && forall u :: u in By(t, x, rest) ==> u in threads && threads[u].joinTo == [t]
    }

    ghost predicate JoinOk(t: Thread, x: Thread?, rest: seq<Thread>)
      requires t in threads
    {
      TargetOk(t, x, rest) && JoinersOk(t, x, rest)
    }

    /** joinTo and joinedBy mirror each other on live threads.  While `x` is being closed,
        `rest` is what is left of its joinedBy. */
    ghost predicate JoinsBy(x: Thread?, rest: seq<Thread>) {
      forall t :: t in threads ==> JoinOk(t, x, rest)
    }

    ghost predicate Joins() {
      JoinsBy(null, [])
    }

    /** Every finished burst is folded exactly once before the thread runs again. */
    ghost predicate BurstOk(r: Rec) {
      && (forall i :: 0 <= i < |r.bursts| ==> r.bursts[i] >= 0.0)
      && (r.st == Executing ==> r.flag && r.burst > 0.0)
      && (r.st == Executing || !r.flag ==> r.est == Average(alpha, r.bursts))
      && (r.st != Executing && r.st != Exited && r.flag ==>
            && r.bursts != [] && r.burst == r.bursts[|r.bursts| - 1]
            && r.est == Average(alpha, r.bursts[..|r.bursts| - 1]))
    }

    ghost predicate Bursts() {
      forall t :: t in threads ==> BurstOk(threads[t])
    }

    ghost predicate Inv() {
      Names() && Queues() && Counted() && Semaphores() && Joins() && Bursts()
    }

    // ---- transitions ----

    /** `validar_grado_multiprogramacion`. */
    predicate Admits() {
      limit >= actual + 1
    }

    function Moved(t: Thread, r: Rec): Sys {
      this.(threads := threads[t := r])
    }

    function WithProc(p: Process, r: Proc): Sys {
      this.(procs := procs[p := r])
    }

    /** `ULT_create`. */
    function AddThread(t: Thread, p: Process): Sys
      requires p in procs
    {
      Moved(t, Rec(New, 0.0, 0.0, false, [], [], []))
      .WithProc(p, procs[p].(ults := procs[p].ults + [t]))
      .(newQueue := newQueue + [t])
    }

    /** `generar_process`. */
    function AddProcess(p: Process): Sys {
      WithProc(p, Proc([], [], null, 0))
    }

    /** `nuevo_a_listo`. */
    function NewToReady(t: Thread, p: Process): Sys
      requires t in threads && p in procs
    {
      Moved(t, threads[t].(st := Ready))
      .WithProc(p, procs[p].(ready := procs[p].ready + [t], permits := procs[p].permits + 1))
      .(newQueue := DropThread(newQueue, t), actual := actual + 1)
    }

    /** `nuevo_a_ejecucion`. */
    function NewToExec(t: Thread, p: Process, now: real): Sys
      requires t in threads && p in procs
    {
      Moved(t, threads[t].(st := Executing, burst := now, flag := true))
      .WithProc(p, procs[p].(exec := t))
      .(newQueue := DropThread(newQueue, t), actual := actual + 1)
    }

    /** The end of a burst in `obtener_proximo_ejecutar`, and `ejecucion_a_listo`. */
    function ExecToReady(t: Thread, p: Process, now: real): Sys
      requires t in threads && p in procs
    {
      var r := threads[t];
      Moved(t, Finished(r, Ready, if r.burst != 0.0 then now - r.burst else r.burst))
      .WithProc(p, procs[p].(exec := null, ready := procs[p].ready + [t], permits := procs[p].permits + 1))
    }

    /** `ejecucion_a_bloqueado`. */
    function ExecToBlocked(t: Thread, p: Process, now: real): Sys
      requires t in threads && p in procs
    {
      var r := threads[t];
      Moved(t, Finished(r, Blocked, if r.burst > 0.0 then now - r.burst else r.burst))
      .WithProc(p, procs[p].(exec := null))
      .(blockedQueue := blockedQueue + [t])
    }

    /** `bloqueado_a_listo`. */
    function BlockedToReady(t: Thread, p: Process): Sys
      requires t in threads && p in procs
    {
      Moved(t, threads[t].(st := Ready))
      .WithProc(p, procs[p].(ready := procs[p].ready + [t], permits := procs[p].permits + 1))
      .(blockedQueue := DropThread(blockedQueue, t))
    }

    /** `listo_a_exit`, after ACTUAL_MULTIPROG has been lowered. */
    function ReadyToExit(t: Thread, p: Process): Sys
      requires t in threads && p in procs
    {
      var e := procs[p];
      Moved(t, threads[t].(st := Exited))
      .WithProc(p, e.(ults := DropTid(e.ults, t.tid), ready := DropTid(e.ready, t.tid), permits := e.permits - 1))
      .(exitQueue := exitQueue + [t], actual := actual - 1)
    }

    /** `ejecucion_a_exit`, and the lowering of ACTUAL_MULTIPROG. */
    function ExecToExit(t: Thread, p: Process): Sys
      requires t in threads && p in procs
    {
      var e := procs[p];
      Moved(t, threads[t].(st := Exited))
      .WithProc(p, e.(ults := DropTid(e.ults, t.tid), exec := null))
      .(exitQueue := exitQueue + [t], actual := actual - 1)
    }

    /** `obtener_ULT_ready_FIFO`: `q` is the process of the first new thread, if there is one. */
    function AdmitNext(q: Process?): Sys
      requires newQueue != [] ==> newQueue[0] in threads && q != null && q in procs
    {
      if newQueue == [] then this else NewToReady(newQueue[0], q)
    }

    /** `estimar_ULTs_listos`. */
    function Estimated(ready: seq<Thread>): Sys {
      this.(threads := map t | t in threads :: if t in ready then Estimate(alpha, threads[t]) else threads[t])
    }

    lemma EstimatedSame(q: seq<Thread>)
      ensures Estimated(q) == this.(threads := Estimated(q).threads)
    {
    }

    lemma EstimatedStep(q: seq<Thread>, i: nat)
      requires Distinct(q) && i < |q| && q[i] in threads
      ensures Estimated(q[..i + 1]).threads == Estimated(q[..i]).threads[q[i] := Estimate(alpha, threads[q[i]])]
      ensures q[i] in Estimated(q[..i]).threads && Estimated(q[..i]).threads[q[i]] == threads[q[i]]
    {
      assert q[..i + 1] == q[..i] + [q[i]];
      assert q[i] !in q[..i];
    }

    lemma EstimatedNone()
      ensures Estimated([]) == this
    {
      assert Estimated([]).threads == threads;
    }

    ghost predicate ByEstimate(q: seq<Thread>) {
      && (forall i :: 0 <= i < |q| ==> q[i] in threads)
      && forall i, j :: 0 <= i < j < |q| ==> threads[q[i]].est <= threads[q[j]].est
    }

    /** The READY_LIST after `ordenar_cola_listos`: any order that respects `funcion_SJF`. */
    ghost predicate Ordered(p: Process, sorted: seq<Thread>)
      requires p in procs
    {
      && sorted != [] && Enumerates(sorted, Elements(procs[p].ready))
      && Estimated(procs[p].ready).ByEstimate(sorted)
    }

    /** `obtener_proximo_ejecutar` from `sem_wait` on: the first of the sorted ready threads
        runs. */
    function Dispatch(p: Process, sorted: seq<Thread>, now: real): Sys
      requires p in procs && sorted != [] && sorted[0] in threads
    {
      var s := Estimated(procs[p].ready);
      var next := sorted[0];
      s.Moved(next, s.threads[next].(st := Executing, flag := true, burst := now))
      .WithProc(p, procs[p].(ready := DropTid(sorted, next.tid), permits := procs[p].permits - 1, exec := next))
    }

    /** `sem_wait` and `ordenar_cola_listos`. */
    function Arranged(p: Process, sorted: seq<Thread>): Sys
      requires p in procs
    {
      Estimated(procs[p].ready).WithProc(p, procs[p].(ready := sorted, permits := procs[p].permits - 1))
    }

    /** The executing thread goes back to the READY_LIST. */
    function Yielded(p: Process, now: real): Sys
      requires p in procs && (procs[p].exec != null ==> procs[p].exec in threads)
    {
      if procs[p].exec == null then this else ExecToReady(procs[p].exec, p, now)
    }

    /** `decrementar_semaforo` by the executing thread `t`. */
    function WaitOn(m: Semaphore, t: Thread, p: Process, now: real): Sys
      requires m in sems && t in threads && p in procs
    {
      var e := sems[m];
      if e.value <= 0 then
        ExecToBlocked(t, p, now)
        .(sems := sems[m := e.(blocked := e.blocked + [t], asked := e.asked + [t], value := e.value - 1,
          waits := e.waits + 1)])
      else this.(sems := sems[m := e.(value := e.value - 1, waits := e.waits + 1)])
    }

    /** `incrementar_semaforo` and `desbloquear_hilos_semaforo`: `p` is the process of the
        first thread blocked there, if there is one. */
    function SignalOn(m: Semaphore, p: Process?): Sys
      requires m in sems && (sems[m].blocked != [] ==> sems[m].blocked[0] in threads && p != null && p in procs)
    {
      var e := sems[m];
      if e.value == m.max then this
      else if e.blocked == [] then this.(sems := sems[m := e.(value := e.value + 1, signals := e.signals + 1)])
      else
        BlockedToReady(e.blocked[0], p)
        .(sems := sems[m := e.(value := e.value + 1, signals := e.signals + 1, blocked := e.blocked[1..],
          woken := e.woken + [e.blocked[0]])])
    }

    /** `u` is in the joinTo of `t`, and `t` in the joinedBy of `u`. */
    function Linked(t: Thread, u: Thread): Sys
      requires t in threads && u in threads
    {
      var a := Moved(t, threads[t].(joinTo := threads[t].joinTo + [u]));
      a.Moved(u, a.threads[u].(joinedBy := a.threads[u].joinedBy + [t]))
    }

    /** `join` of the executing thread `t` with the live thread `u`. */
    function JoinOn(t: Thread, u: Thread, p: Process, now: real): Sys
      requires t in threads && u in threads && p in procs
    {
      Linked(t, u).ExecToBlocked(t, p, now)
    }

    /** `desjoinear_hilo`: at the limit of the multiprogramming degree the joiner goes to NEW,
        without leaving blocked_queue and without giving up its place in ACTUAL_MULTIPROG. */
    function Unjoin(u: Thread, t: Thread, p: Process): (r: Sys)
      requires t in threads && p in procs
      ensures r.threads.Keys == threads.Keys && r.procs.Keys == procs.Keys
    {
      var a := Moved(t, threads[t].(joinTo := DropTid(threads[t].joinTo, u.tid)));
      if a.threads[t].joinTo != [] then a
      else if Admits() then a.BlockedToReady(t, p)
      else a.BackToNew(t)
    }

    function BackToNew(t: Thread): Sys
      requires t in threads
    {
      Moved(t, threads[t].(st := New)).(newQueue := newQueue + [t])
    }

    /** `desjoinear`. */
    function UnjoinAll(u: Thread, js: seq<Thread>, p: Process): (r: Sys)
      requires p in procs && forall i :: 0 <= i < |js| ==> js[i] in threads
      ensures r.threads.Keys == threads.Keys && r.procs.Keys == procs.Keys
      decreases |js|
    {
      if js == [] then this else
      Unjoin(u, js[0], p).UnjoinAll(u, js[1..], p)
    }

    /** `close_tid` of a READY or EXECUTE thread, up to the admission. */
    function Ended(t: Thread, p: Process): Sys
      requires t in threads && p in procs
    {
      if threads[t].st == Ready then ReadyToExit(t, p) else ExecToExit(t, p)
    }

    /** `close_tid` before the admission of a new thread. */
    function Leaving(t: Thread, p: Process): (r: Sys)
      requires t in threads && p in procs && forall i :: 0 <= i < |threads[t].joinedBy| ==>
               threads[t].joinedBy[i] in threads
      ensures r.threads.Keys == threads.Keys && r.procs.Keys == procs.Keys
    {
      UnjoinAllKeys(t, threads[t].joinedBy, p);
      UnjoinAll(t, threads[t].joinedBy, p).Ended(t, p)
    }

    lemma UnjoinAllKeys(u: Thread, js: seq<Thread>, p: Process)
      requires p in procs && forall i :: 0 <= i < |js| ==> js[i] in threads
      ensures UnjoinAll(u, js, p).threads.Keys == threads.Keys && UnjoinAll(u, js, p).procs.Keys == procs.Keys
      decreases |js|
    {
      if js != [] {
        Unjoin(u, js[0], p).UnjoinAllKeys(u, js[1..], p);
      }
    }

    function Admitted(q: Process?): Sys
      requires newQueue != [] ==> newQueue[0] in threads && q != null && q in procs
    {
      if Admits() then AdmitNext(q) else this
    }

    // ---- what a transition leaves alone ----

    ghost predicate SameWaits(o: Sys) {
      && sems == o.sems && o.threads.Keys <= threads.Keys
      && forall t :: t in threads ==>
           if t in o.threads then
             && threads[t].joinTo == o.threads[t].joinTo && threads[t].joinedBy == o.threads[t].joinedBy
             && (threads[t].st == Blocked <==> o.threads[t].st == Blocked)
             && (threads[t].st == Exited <==> o.threads[t].st == Exited)
           else threads[t].joinTo == threads[t].joinedBy == [] && threads[t].st == New
    }

    lemma SemFrame(o: Sys, m: Semaphore)
      requires SameWaits(o) && m in sems && o.SemOk(m)
      ensures SemOk(m)
    {
    }

    lemma WaitsFrame(o: Sys, x: Thread?, rest: seq<Thread>)
      requires o.Semaphores() && o.JoinsBy(x, rest) && SameWaits(o) && (x != null ==> x in o.threads)
      ensures Semaphores() && JoinsBy(x, rest)
    {
      forall m | m in sems ensures SemOk(m) {
        SemFrame(o, m);
      }
      forall t | t in threads ensures JoinOk(t, x, rest) {
        JoinFrame(o, t, x, rest);
      }
      hide SemOk, JoinOk;
    }

    lemma JoinFrame(o: Sys, t: Thread, x: Thread?, rest: seq<Thread>)
      requires SameWaits(o) && t in threads && o.JoinsBy(x, rest) && (x != null ==> x in o.threads)
      ensures JoinOk(t, x, rest)
    {
      if t in o.threads {
        assert o.JoinOk(t, x, rest);
        assert o.Waiting(t) <==> Waiting(t);
      }
    }

    /** Only the process `p`, its threads and the queues changed. */
    ghost predicate SameElsewhere(o: Sys, p: Process) {
      && procs.Keys == o.procs.Keys && (forall q :: q in procs && q != p ==> procs[q] == o.procs[q])
      && (forall t :: t in o.threads ==> t in threads)
      && (forall t :: t in threads && t.procesoId != p.id ==> t in o.threads && threads[t].st == o.threads[t].st)
    }

    lemma OneElsewhere(o: Sys, p: Process, q: Process)
      requires SameElsewhere(o, p) && p in o.procs && q in o.procs && q.id != p.id && o.ProcOk(q)
      ensures q in procs && ProcOk(q)
    {
      hide Enumerates;
      assert Of(q.id, Ready) == o.Of(q.id, Ready);
      assert Of(q.id, Executing) == o.Of(q.id, Executing);
      assert Live(q.id) == o.Live(q.id);
    }

    lemma ElsewhereOk(o: Sys, p: Process)
      requires SameElsewhere(o, p) && o.Names() && o.Queues() && p in o.procs
      requires ProcOk(p) && Enumerates(newQueue, All(New))
      requires forall t :: t in threads && threads[t].st == Blocked ==> t in blockedQueue
      ensures Queues()
    {
      hide ProcOk, Enumerates, All;
      forall q | q in procs ensures ProcOk(q) {
        if q != p {
          OneElsewhere(o, p, q);
        }
      }
    }

    ghost function After(ts: set<Thread>, t: Thread, there: bool): set<Thread> {
      if there then ts + {t} else ts - {t}
    }

    lemma AfterOut(ts: set<Thread>, t: Thread)
      requires t !in ts
      ensures After(ts, t, false) == ts
    {
    }

    lemma SetsAfter(o: Sys, t: Thread, id: int, k: Status)
      requires t in o.threads && t in threads && threads == o.threads[t := threads[t]] && o.threads[t].st != Exited
               && id == t.procesoId
      ensures Of(id, k) == After(o.Of(id, k), t, threads[t].st == k)
      ensures All(k) == After(o.All(k), t, threads[t].st == k)
      ensures Live(id) == if threads[t].st == Exited then o.Live(id) - {t} else o.Live(id)
      ensures Active() == After(o.Active(), t, threads[t].st in {Ready, Executing, Blocked})
    {
      OfAfter(o, t, id, k);
      AllAfter(o, t, k);
      LiveAfter(o, t, id);
      hide Of, All, Live, After;
      ActiveAfter(o, t);
    }

    lemma OfAfter(o: Sys, t: Thread, id: int, k: Status)
      requires t in o.threads && t in threads && threads == o.threads[t := threads[t]] && id == t.procesoId
      ensures Of(id, k) == After(o.Of(id, k), t, threads[t].st == k)
    {
    }

    lemma AllAfter(o: Sys, t: Thread, k: Status)
      requires t in o.threads && t in threads && threads == o.threads[t := threads[t]]
      ensures All(k) == After(o.All(k), t, threads[t].st == k)
    {
    }

    lemma LiveAfter(o: Sys, t: Thread, id: int)
      requires t in o.threads && t in threads && threads == o.threads[t := threads[t]] && o.threads[t].st != Exited
               && id == t.procesoId
      ensures Live(id) == if threads[t].st == Exited then o.Live(id) - {t} else o.Live(id)
    {
    }

    lemma ActiveAfter(o: Sys, t: Thread)
      requires t in o.threads && t in threads && threads == o.threads[t := threads[t]]
      ensures Active() == After(o.Active(), t, threads[t].st in {Ready, Executing, Blocked})
    {
    }

    /** What the invariant says of a live thread and its process. */
    lemma ThreadFacts(t: Thread, p: Process)
      requires Names() && Queues() && t in threads && threads[t].st != Exited && p in procs && p.id == t.procesoId
      ensures Enumerates(procs[p].ults, Live(p.id)) && t in Live(p.id)
      ensures Enumerates(procs[p].ready, Of(p.id, Ready)) && procs[p].permits == |procs[p].ready|
      ensures Of(p.id, Executing) == if procs[p].exec == null then {} else {procs[p].exec}
      ensures Enumerates(newQueue, All(New))
      ensures forall k :: t in Of(p.id, k) <==> threads[t].st == k
      ensures forall k :: t in All(k) <==> threads[t].st == k
      ensures NoTwins(newQueue, t) && NoTwins(procs[p].ready, t) && NoTwins(procs[p].ults, t)
      ensures forall i :: 0 <= i < |procs[p].ready| ==> procs[p].ready[i].procesoId == t.procesoId
      ensures forall i :: 0 <= i < |procs[p].ults| ==> procs[p].ults[i].procesoId == t.procesoId
    {
      assert ProcOk(p);
    }

    lemma IsProcOk(p: Process)
      requires p in procs
      requires Enumerates(procs[p].ults, Live(p.id))
      requires Enumerates(procs[p].ready, Of(p.id, Ready)) && procs[p].permits == |procs[p].ready|
      requires Of(p.id, Executing) == if procs[p].exec == null then {} else {procs[p].exec}
      ensures ProcOk(p)
    {
    }

    lemma BlockedListed(t: Thread)
      requires Queues() && t in threads && threads[t].st == Blocked
      ensures t in blockedQueue
    {
    }

    lemma NamesAfter(o: Sys, t: Thread, r: Rec)
      requires o.Names() && t in o.threads && o.threads[t].st != Exited && threads == o.threads[t := r]
               && procs.Keys == o.procs.Keys
      ensures Names()
    {
    }

    lemma MovedElsewhere(o: Sys, t: Thread, r: Rec, p: Process, e: Proc)
      requires t in o.threads && p in o.procs && p.id == t.procesoId
      requires threads == o.threads[t := r] && procs == o.procs[p := e]
      ensures SameElsewhere(o, p)
    {
    }

    /** A step that moves the live thread `t` of process `p` to another status keeps the
        queues exact when it moves `t` between the lists accordingly. */
    lemma Queued(o: Sys, t: Thread, p: Process)
      requires o.Names() && o.Queues() && t in o.threads && o.threads[t].st != Exited && p in o.procs
               && p.id == t.procesoId
      requires t in threads && threads == o.threads[t := threads[t]] && p in procs && procs == o.procs[p := procs[p]]
      requires Enumerates(procs[p].ults, if threads[t].st == Exited then o.Live(p.id) - {t} else o.Live(p.id))
      requires Enumerates(procs[p].ready, After(o.Of(p.id, Ready), t, threads[t].st == Ready))
      requires procs[p].permits == |procs[p].ready|
      requires (if procs[p].exec == null then {}
               else {procs[p].exec}) == After(o.Of(p.id, Executing), t, threads[t].st == Executing)
      requires Enumerates(newQueue, After(o.All(New), t, threads[t].st == New))
      requires forall u :: u in o.threads && u != t && o.threads[u].st == Blocked ==> u in blockedQueue
      requires threads[t].st == Blocked ==> t in blockedQueue
      ensures Names() && Queues()
    {
      hide *;
      SetsAfter(o, t, p.id, Ready);
      SetsAfter(o, t, p.id, Executing);
      SetsAfter(o, t, p.id, New);
      NamesAfter(o, t, threads[t]);
      MovedElsewhere(o, t, threads[t], p, procs[p]);
      IsProcOk(p);
      ElsewhereOk(o, p);
    }

    lemma NewToReadyQueues(t: Thread, p: Process)
      requires Names() && Queues() && t in threads && threads[t].st == New && p in procs && p.id == t.procesoId
      ensures NewToReady(t, p).Queues() && NewToReady(t, p).Names()
    {
      hide Enumerates, Names, Queues, DropThread, Of, All, Live;
      var s := NewToReady(t, p);
      ThreadFacts(t, p);
      DropEnumerates(newQueue, All(New), t);
      AppendEnumerates(procs[p].ready, Of(p.id, Ready), t);
      forall u | u in threads && threads[u].st == Blocked ensures u in blockedQueue {
        BlockedListed(u);
      }
      s.Queued(this, t, p);
    }

    lemma CountAfter(o: Sys, t: Thread)
      requires t in o.threads && t in threads && threads == o.threads[t := threads[t]] && o.threads[t].st != Exited
      ensures |Active()| == |o.Active()| + Weight(threads[t]) - Weight(o.threads[t])
    {
      SetsAfter(o, t, t.procesoId, New);
      assert t in o.Active() <==> Weight(o.threads[t]) == 1;
      hide Active;
      SizeAfter(o.Active(), t, threads[t].st in {Ready, Executing, Blocked});
    }

    lemma SizeAfter(ts: set<Thread>, t: Thread, there: bool)
      ensures |After(ts, t, there)| == |ts| + (if there then 1 else 0) - (if t in ts then 1 else 0)
    {
      if t !in ts {
        assert ts - {t} == ts;
      } else {
        assert ts + {t} == ts;
      }
    }

    lemma BurstsAfter(o: Sys, t: Thread)
      requires o.Bursts() && t in threads && threads == o.threads[t := threads[t]] && alpha == o.alpha
               && BurstOk(threads[t])
      ensures Bursts()
    {
      hide Average;
    }

    lemma {:induction false} AverageMore(a: real, bursts: seq<real>, x: real)
      ensures (bursts + [x])[..|bursts|] == bursts
      ensures Average(a, bursts + [x]) == a * x + (1.0 - a) * Average(a, bursts)
    {
    }

    ghost predicate Core() {
      Names() && Queues() && Counted() && Bursts()
    }

    lemma InvIs()
      ensures Inv() <==> Core() && Semaphores() && JoinsBy(null, [])
    {
    }

    lemma NewToReadyKeeps(t: Thread, p: Process)
      requires Inv() && t in threads && threads[t].st == New && p in procs && p.id == t.procesoId && Admits()
      ensures NewToReady(t, p).Inv()
    {
      hide Names, Queues, Bursts, DropThread, Semaphores, JoinsBy, Active, Average;
      var s := NewToReady(t, p);
      NewToReadyQueues(t, p);
      s.CountAfter(this, t);
      BurstAt(t);
      s.BurstsAfter(this, t);
      s.WaitsFrame(this, null, []);
    }

    lemma BurstAt(t: Thread)
      requires Bursts() && t in threads
      ensures BurstOk(threads[t])
    {
    }

    lemma BlockedStay()
      requires Queues()
      ensures forall u :: u in threads && threads[u].st == Blocked ==> u in blockedQueue
    {
    }

    lemma NewToExecKeeps(t: Thread, p: Process, now: real)
      requires Inv() && t in threads && threads[t].st == New && p in procs && p.id == t.procesoId && Admits()
      requires procs[p].exec == null && !threads[t].flag && now > 0.0
      ensures NewToExec(t, p, now).Inv()
    {
      hide Names, Queues, Bursts, DropThread, Semaphores, JoinsBy, Active, Average, Enumerates, Of, All, Live;
      var s := NewToExec(t, p, now);
      ThreadFacts(t, p);
      BlockedStay();
      DropEnumerates(newQueue, All(New), t);
      AfterOut(Of(p.id, Ready), t);
      assert {t} == {} + {t};
      s.Queued(this, t, p);
      s.CountAfter(this, t);
      BurstAt(t);
      s.BurstsAfter(this, t);
      s.WaitsFrame(this, null, []);
    }

    lemma FinishedOk(r: Rec, k: Status, length: real)
      requires BurstOk(r) && r.st == Executing && length >= 0.0 && k in {Ready, Blocked}
      ensures BurstOk(Finished(r, k, length))
    {
      AverageMore(alpha, r.bursts, length);
    }

    lemma ExecToReadyKeeps(t: Thread, p: Process, now: real)
      requires Inv() && t in threads && p in procs && p.id == t.procesoId && procs[p].exec == t
               && now >= threads[t].burst
      ensures ExecToReady(t, p, now).Inv() && threads[t].st == Executing
    {
      hide Names, Queues, Bursts, DropThread, Semaphores, JoinsBy, Active, Average, Enumerates, Of, All, Live, BurstOk;
      var s := ExecToReady(t, p, now);
      ExecIs(t, p);
      ThreadFacts(t, p);
      BlockedStay();
      AppendEnumerates(procs[p].ready, Of(p.id, Ready), t);
      AfterOut(All(New), t);
      assert {t} - {t} == {};
      s.Queued(this, t, p);
      s.CountAfter(this, t);
      BurstAt(t);
      var start := threads[t].burst;
      FinishedOk(threads[t], Ready, if start != 0.0 then now - start else start);
      BurstSame(s, s.threads[t]);
      s.BurstsAfter(this, t);
      s.WaitsFrame(this, null, []);
    }

    lemma BurstSame(s: Sys, r: Rec)
      requires BurstOk(r) && s.alpha == alpha
      ensures s.BurstOk(r)
    {
    }

    lemma ExecIs(t: Thread, p: Process)
      requires Names() && Queues() && p in procs && procs[p].exec == t
      ensures t in threads && threads[t].st == Executing && t.procesoId == p.id
      ensures Of(p.id, Executing) == {t}
    {
      assert ProcOk(p);
      assert t in Of(p.id, Executing);
    }

    // ---- estimation and dispatch ----

    /** Statuses, processes and queues are as they were. */
    ghost predicate SameStatuses(o: Sys) {
      && threads.Keys == o.threads.Keys && (forall t :: t in threads ==> threads[t].st == o.threads[t].st)
      && procs == o.procs && newQueue == o.newQueue && blockedQueue == o.blockedQueue
      && actual == o.actual && limit == o.limit && alpha == o.alpha
    }

    lemma ProcSame(o: Sys, p: Process)
      requires SameStatuses(o) && p in procs && o.ProcOk(p)
      ensures ProcOk(p)
    {
      hide Enumerates;
      assert Live(p.id) == o.Live(p.id);
      assert Of(p.id, Ready) == o.Of(p.id, Ready);
      assert Of(p.id, Executing) == o.Of(p.id, Executing);
    }

    lemma StatusesFrame(o: Sys)
      requires SameStatuses(o) && o.Names() && o.Queues() && o.Counted()
      ensures Names() && Queues() && Counted()
    {
      hide ProcOk, Enumerates;
      forall p | p in procs ensures ProcOk(p) {
        ProcSame(o, p);
      }
      assert All(New) == o.All(New);
      assert Active() == o.Active();
    }

    lemma EstimateOk(r: Rec)
      requires BurstOk(r) && r.st == Ready
      ensures BurstOk(Estimate(alpha, r)) && !Estimate(alpha, r).flag
    {
    }

    lemma EstimatedRec(q: seq<Thread>)
      ensures var s := Estimated(q);
              && s.SameStatuses(this) && s.SameWaits(this) && s.alpha == alpha
              && forall t :: t in threads ==> s.threads[t] == if t in q then Estimate(alpha, threads[t]) else threads[t]
    {
    }

    lemma ReadyAre(p: Process)
      requires Queues() && p in procs
      ensures forall t :: t in procs[p].ready ==> t in threads && threads[t].st == Ready
    {
      assert ProcOk(p);
      forall t | t in procs[p].ready ensures t in Of(p.id, Ready) {
      }
    }

    lemma EstimatedKeeps(p: Process)
      requires Inv() && p in procs
      ensures Estimated(procs[p].ready).Inv() && Estimated(procs[p].ready).SameStatuses(this)
      ensures forall t :: t in procs[p].ready ==> t in threads && !Estimated(procs[p].ready).threads[t].flag
    {
      hide *;
      InvIs();
      CoreIs();
      ReadyAre(p);
      var s := Estimated(procs[p].ready);
      EstimatedRec(procs[p].ready);
      s.StatusKeys(this);
      forall t | t in threads ensures s.BurstOk(s.threads[t]) && (t in procs[p].ready ==> !s.threads[t].flag) {
        BurstAt(t);
        if t in procs[p].ready {
          EstimateOk(threads[t]);
          BurstSame(s, Estimate(alpha, threads[t]));
        } else {
          BurstSame(s, threads[t]);
        }
      }
      s.WaitsFrame(this, null, []);
      s.StatusesFrame(this);
      s.BurstsAll();
      s.CoreIs();
      s.InvIs();
    }

    lemma CoreIs()
      ensures Core() <==> Names() && Queues() && Counted() && Bursts()
    {
    }

    lemma StatusKeys(o: Sys)
      requires SameStatuses(o)
      ensures threads.Keys == o.threads.Keys
    {
    }

    lemma BurstsAll()
      requires forall t :: t in threads ==> BurstOk(threads[t])
      ensures Bursts()
    {
    }

    lemma {:induction false} SizeOfList(q: seq<Thread>, ts: set<Thread>)
      requires Enumerates(q, ts)
      ensures |q| == |ts|
    {
      if q != [] {
        var n := |q| - 1;
        assert q == q[..n] + [q[n]];
        SizeOfList(q[..n], ts - {q[n]});
      }
    }

    lemma SortedReady(p: Process, sorted: seq<Thread>, t: Thread)
      requires Names() && Queues() && p in procs && sorted != [] && sorted[0] == t
      requires Enumerates(sorted, Elements(procs[p].ready))
      ensures t in threads && threads[t].st == Ready && t.procesoId == p.id && t in procs[p].ready
      ensures Enumerates(DropTid(sorted, t.tid), Of(p.id, Ready) - {t})
      ensures |DropTid(sorted, t.tid)| == |procs[p].ready| - 1
    {
      assert ProcOk(p);
      var ts := Elements(procs[p].ready);
      assert ts == Of(p.id, Ready);
      assert t in ts;
      forall i | 0 <= i < |sorted| ensures sorted[i] in Of(p.id, Ready) {
      }
      DropTidIs(sorted, t);
      DropEnumerates(sorted, ts, t);
      SizeOfList(sorted, ts);
      SizeOfList(procs[p].ready, ts);
    }

    lemma DispatchKeeps(p: Process, sorted: seq<Thread>, now: real)
      requires Inv() && p in procs && procs[p].exec == null && Ordered(p, sorted) && now > 0.0
      ensures sorted[0] in threads && Dispatch(p, sorted, now).Inv()
    {
      hide Names, Queues, Bursts, DropThread, DropTid, Semaphores, JoinsBy, Active, Average, Enumerates, Of, All, Live,
        BurstOk, Estimated, SameStatuses;
      var t := sorted[0];
      SortedReady(p, sorted, t);
      var o, s := Estimated(procs[p].ready), Dispatch(p, sorted, now);
      EstimatedKeeps(p);
      EstimatedIs(p);
      o.ThreadFacts(t, p);
      o.SortedReady(p, sorted, t);
      o.BlockedStay();
      o.AfterOut(o.All(New), t);
      assert {t} == {} + {t};
      s.Queued(o, t, p);
      s.CountAfter(o, t);
      o.BurstAt(t);
      o.RunOk(o.threads[t], now);
      o.BurstSame(s, s.threads[t]);
      s.BurstsAfter(o, t);
      s.WaitsFrame(o, null, []);
    }

    lemma YieldedIs(p: Process, now: real)
      requires p in procs && (procs[p].exec != null ==> procs[p].exec in threads)
      ensures Yielded(p, now) == if procs[p].exec == null then this else ExecToReady(procs[p].exec, p, now)
      ensures p in Yielded(p, now).procs && Yielded(p, now).procs[p].exec == null
      ensures procs[p].exec != null ==> Yielded(p, now).procs[p].ready != []
    {
    }

    lemma DispatchIs(p: Process, sorted: seq<Thread>, now: real, r: Sys)
      requires p in procs && sorted != [] && sorted[0] in threads
      requires var a, t := Arranged(p, sorted), sorted[0];
               && t in a.threads && p in a.procs
               && r == a.(threads := a.threads[t := a.threads[t].(st := Executing, flag := true, burst := now)],
                  procs := r.procs)
               && r.procs == a.procs[p := a.procs[p].(ready := DropTid(a.procs[p].ready, t.tid), exec := t)]
      ensures r == Dispatch(p, sorted, now)
    {
      hide DropTid;
      EstimatedRec(procs[p].ready);
    }

    lemma OrderedIs(p: Process, sorted: seq<Thread>)
      requires p in procs && sorted != [] && Enumerates(sorted, Elements(procs[p].ready))
      requires Estimated(procs[p].ready).ByEstimate(sorted)
      ensures Ordered(p, sorted)
    {
    }

    lemma ArrangedIs(p: Process, sorted: seq<Thread>, r: Sys)
      requires p in procs
      requires r == Estimated(procs[p].ready).(procs := procs[p := procs[p].(ready := sorted,
               permits := procs[p].permits - 1)])
      ensures r == Arranged(p, sorted)
    {
    }

    lemma RunOk(r: Rec, now: real)
      requires BurstOk(r) && r.st == Ready && !r.flag && now > 0.0
      ensures BurstOk(r.(st := Executing, flag := true, burst := now))
    {
    }

    lemma EstimatedIs(p: Process)
      requires p in procs
      ensures var s := Estimated(procs[p].ready);
              && s == this.(threads := s.threads) && s.threads.Keys == threads.Keys
              && forall t :: t in threads ==> s.threads[t].st == threads[t].st
    {
    }

    /** The thread dispatched has the least estimate of all ready threads. */
    lemma DispatchesShortest(p: Process, sorted: seq<Thread>, u: Thread)
      requires p in procs && Ordered(p, sorted) && u in procs[p].ready
      ensures sorted[0] in procs[p].ready
      ensures sorted[0] in threads && u in threads
      ensures Estimated(procs[p].ready).threads[sorted[0]].est <= Estimated(procs[p].ready).threads[u].est
    {
      var ts := Elements(procs[p].ready);
      assert u in ts && u in sorted;
      var i :| 0 <= i < |sorted| && sorted[i] == u;
      assert sorted[0] in ts;
    }

    /** A request for the next thread, when it does not have to wait: the executing thread
        yields and one of the ready ones is dispatched. */
    lemma NextKeeps(p: Process, sorted: seq<Thread>, now: real)
      requires Inv() && p in procs && now > 0.0
      requires procs[p].exec != null ==> procs[p].exec in threads && now >= threads[procs[p].exec].burst
      requires Yielded(p, now).Ordered(p, sorted)
      ensures p in Yielded(p, now).procs && sorted[0] in Yielded(p, now).threads
      ensures Yielded(p, now).Dispatch(p, sorted, now).Inv()
    {
      if procs[p].exec != null {
        ExecIs(procs[p].exec, p);
        ExecToReadyKeeps(procs[p].exec, p, now);
      }
      Yielded(p, now).DispatchKeeps(p, sorted, now);
    }

    // ---- semaphores ----

    lemma NotWaiting(t: Thread)
      requires Semaphores() && t in threads && (threads[t].st != Blocked || threads[t].joinTo != [])
      ensures forall m :: m in sems ==> t !in sems[m].blocked
    {
      forall m | m in sems ensures t !in sems[m].blocked {
        assert SemOk(m);
      }
    }

    lemma ExecutingJoins(t: Thread)
      requires JoinsBy(null, []) && t in threads && threads[t].st != Blocked
      ensures threads[t].joinTo == []
    {
      assert JoinOk(t, null, []);
    }

    /** `ejecucion_a_bloqueado` as far as the queues, the count and the bursts go. */
    lemma ExecToBlockedCore(t: Thread, p: Process, now: real)
      requires Core() && p in procs && procs[p].exec == t && t in threads && now >= threads[t].burst
      ensures ExecToBlocked(t, p, now).Core() && threads[t].st == Executing && t.procesoId == p.id
    {
      hide Names, Queues, Bursts, DropThread, Active, Average, Enumerates, Of, All, Live, BurstOk;
      var s := ExecToBlocked(t, p, now);
      ExecIs(t, p);
      ThreadFacts(t, p);
      BlockedStay();
      AfterOut(All(New), t);
      AfterOut(Of(p.id, Ready), t);
      assert {t} - {t} == {};
      s.Queued(this, t, p);
      s.CountAfter(this, t);
      BurstAt(t);
      var start := threads[t].burst;
      FinishedOk(threads[t], Blocked, if start > 0.0 then now - start else start);
      BurstSame(s, s.threads[t]);
      s.BurstsAfter(this, t);
    }

    lemma BlockedToReadyCore(t: Thread, p: Process)
      requires Core() && t in threads && threads[t].st == Blocked && p in procs && p.id == t.procesoId
      ensures BlockedToReady(t, p).Core()
    {
      hide Queues, Bursts, DropThread, Active, Average, Enumerates, Of, All, Live, BurstOk;
      var s := BlockedToReady(t, p);
      ThreadFacts(t, p);
      BlockedStay();
      forall u | u in threads && u != t && threads[u].st == Blocked ensures u in s.blockedQueue {
        DropKeeps(blockedQueue, t, u);
      }
      AppendEnumerates(procs[p].ready, Of(p.id, Ready), t);
      AfterOut(All(New), t);
      AfterOut(Of(p.id, Executing), t);
      s.Queued(this, t, p);
      s.CountAfter(this, t);
      BurstAt(t);
      StillFinished(threads[t], Ready);
      BurstSame(s, s.threads[t]);
      s.BurstsAfter(this, t);
    }

    lemma StillFinished(r: Rec, k: Status)
      requires BurstOk(r) && r.st in {Ready, Blocked} && k in {Ready, Blocked, New}
      ensures BurstOk(r.(st := k))
    {
    }

    lemma CoreFrame(o: Sys)
      requires o.Core() && this == o.(sems := sems)
      ensures Core()
    {
      hide Average, BurstOk;
      StatusesFrame(o);
      forall t | t in threads ensures BurstOk(threads[t]) {
        o.BurstAt(t);
        o.BurstSame(this, threads[t]);
      }
    }

    lemma WaitSem(m: Semaphore, t: Thread, p: Process, now: real, n: Semaphore)
      requires Semaphores() && m in sems && t in threads && p in procs && n in sems
      requires sems[m].value <= 0 && threads[t].st == Executing && threads[t].joinTo == []
      ensures WaitOn(m, t, p, now).SemOk(n)
    {
      assert SemOk(n);
      NotWaiting(t);
    }

    lemma WaitJoin(m: Semaphore, t: Thread, p: Process, now: real, u: Thread)
      requires JoinsBy(null, []) && m in sems && t in threads && p in procs && u in threads
      requires sems[m].value <= 0 && threads[t].st == Executing && threads[t].joinTo == []
      ensures WaitOn(m, t, p, now).JoinOk(u, null, [])
    {
      assert JoinOk(u, null, []);
      var s := WaitOn(m, t, p, now);
      WaitingStays(s, m, u);
      hide Waiting;
    }

    lemma WaitWaits(m: Semaphore, t: Thread, p: Process, now: real)
      requires Semaphores() && JoinsBy(null, []) && m in sems && t in threads && p in procs
      requires sems[m].value <= 0 && threads[t].st == Executing
      ensures WaitOn(m, t, p, now).Semaphores() && WaitOn(m, t, p, now).JoinsBy(null, [])
    {
      hide SemOk, JoinOk;
      var s := WaitOn(m, t, p, now);
      NotWaiting(t);
      ExecutingJoins(t);
      forall n | n in s.sems ensures s.SemOk(n) {
        WaitSem(m, t, p, now, n);
      }
      forall u | u in s.threads ensures s.JoinOk(u, null, []) {
        WaitJoin(m, t, p, now, u);
      }
    }

    lemma WaitingStays(s: Sys, m: Semaphore, u: Thread)
      requires m in sems && m in s.sems && s.sems == sems[m := s.sems[m]]
      requires forall x :: x in sems[m].blocked ==> x in s.sems[m].blocked
      ensures Waiting(u) ==> s.Waiting(u)
      ensures u in s.sems[m].blocked ==> s.Waiting(u)
    {
      if n :| n in sems && u in sems[n].blocked {
        assert n in s.sems && u in s.sems[n].blocked;
      }
    }

    lemma WaitKeeps(m: Semaphore, t: Thread, p: Process, now: real)
      requires Inv() && m in sems && p in procs && procs[p].exec == t && t in threads && now >= threads[t].burst
      ensures WaitOn(m, t, p, now).Inv()
    {
      hide *;
      InvIs();
      CoreIs();
      ExecIs(t, p);
      WaitOnIs(m, t, p, now);
      var s := WaitOn(m, t, p, now);
      if sems[m].value <= 0 {
        ExecToBlockedCore(t, p, now);
        s.CoreFrame(ExecToBlocked(t, p, now));
        WaitWaits(m, t, p, now);
      } else {
        s.CoreFrame(this);
        WaitDown(m, t, p, now);
      }
      s.InvIs();
    }

    lemma WaitOnIs(m: Semaphore, t: Thread, p: Process, now: real)
      requires m in sems && t in threads && p in procs
      ensures var s := WaitOn(m, t, p, now);
              s == (if sems[m].value <= 0 then ExecToBlocked(t, p, now) else this).(sems := s.sems)
    {
    }

    lemma WaitDown(m: Semaphore, t: Thread, p: Process, now: real)
      requires Semaphores() && JoinsBy(null, []) && m in sems && t in threads && p in procs && sems[m].value > 0
      ensures WaitOn(m, t, p, now).Semaphores() && WaitOn(m, t, p, now).JoinsBy(null, [])
    {
      var s := WaitOn(m, t, p, now);
      SemChanged(m, s.sems[m]);
    }

    /** A semaphore changes without changing who is blocked there. */
    lemma SemChanged(m: Semaphore, e: Sem)
      requires Semaphores() && JoinsBy(null, []) && m in sems && e.blocked == sems[m].blocked
               && e.asked == sems[m].asked && e.woken == sems[m].woken
      requires this.(sems := sems[m := e]).SemOk(m)
      ensures this.(sems := sems[m := e]).Semaphores() && this.(sems := sems[m := e]).JoinsBy(null, [])
    {
      var s := this.(sems := sems[m := e]);
      forall n | n in s.sems ensures s.SemOk(n) {
        assert SemOk(n);
      }
      forall u | u in s.threads ensures s.JoinOk(u, null, []) {
        assert JoinOk(u, null, []);
        WaitingStays(s, m, u);
      }
      hide SemOk, JoinOk;
    }

    lemma SignalSem(m: Semaphore, p: Process?, n: Semaphore)
      requires Semaphores() && m in sems && sems[m].blocked != [] && sems[m].value != m.max && n in sems
      requires sems[m].blocked[0] in threads && p != null && p in procs
      ensures SignalOn(m, p).SemOk(n)
    {
      assert SemOk(m) && SemOk(n);
      assert sems[m].blocked == [sems[m].blocked[0]] + sems[m].blocked[1..];
    }

    lemma SignalJoin(m: Semaphore, p: Process?, u: Thread)
      requires JoinsBy(null, []) && m in sems && sems[m].blocked != [] && sems[m].value != m.max && u in threads
      requires sems[m].blocked[0] in threads && p != null && p in procs
      requires threads[sems[m].blocked[0]].joinTo == [] && threads[sems[m].blocked[0]].st == Blocked
      ensures SignalOn(m, p).JoinOk(u, null, [])
    {
      assert JoinOk(u, null, []);
      WaitingBut(SignalOn(m, p), m, u);
      hide Waiting;
    }

    lemma SignalWaits(m: Semaphore, p: Process?)
      requires Semaphores() && JoinsBy(null, []) && m in sems && sems[m].blocked != [] && sems[m].value != m.max
      requires sems[m].blocked[0] in threads && p != null && p in procs
      ensures SignalOn(m, p).Semaphores() && SignalOn(m, p).JoinsBy(null, [])
    {
      var s, t := SignalOn(m, p), sems[m].blocked[0];
      assert SemOk(m);
      hide SemOk, JoinOk;
      forall n | n in s.sems ensures s.SemOk(n) {
        SignalSem(m, p, n);
      }
      forall u | u in s.threads ensures s.JoinOk(u, null, []) {
        SignalJoin(m, p, u);
      }
    }

    lemma WaitingBut(s: Sys, m: Semaphore, u: Thread)
      requires m in sems && m in s.sems && s.sems == sems[m := s.sems[m]] && sems[m].blocked != []
               && s.sems[m].blocked == sems[m].blocked[1..]
      ensures Waiting(u) && u != sems[m].blocked[0] ==> s.Waiting(u)
    {
      if n :| n in sems && u in sems[n].blocked && u != sems[m].blocked[0] {
        assert n in s.sems && u in s.sems[n].blocked;
      }
    }

    lemma SignalKeeps(m: Semaphore, p: Process?)
      requires Inv() && m in sems
      requires sems[m].blocked != [] ==> p != null && p in procs && p.id == sems[m].blocked[0].procesoId
      ensures sems[m].blocked != [] ==> sems[m].blocked[0] in threads
      ensures SignalOn(m, p).Inv()
    {
      assert SemOk(m);
      var s := SignalOn(m, p);
      hide *;
      InvIs();
      SignalOnIs(m, p);
      if sems[m].value == m.max {
      } else if sems[m].blocked == [] {
        s.CoreFrame(this);
        SignalUp(m, p);
        s.InvIs();
      } else {
        BlockedToReadyCore(sems[m].blocked[0], p);
        s.CoreFrame(BlockedToReady(sems[m].blocked[0], p));
        SignalWaits(m, p);
        s.InvIs();
      }
    }

    lemma SignalOnIs(m: Semaphore, p: Process?)
      requires m in sems && (sems[m].blocked != [] ==> sems[m].blocked[0] in threads && p != null && p in procs)
      ensures var s := SignalOn(m, p);
              s == if sems[m].value == m.max then this
                   else if sems[m].blocked == [] then this.(sems := s.sems)
                   else BlockedToReady(sems[m].blocked[0], p).(sems := s.sems)
    {
    }

    lemma SignalUp(m: Semaphore, p: Process?)
      requires Semaphores() && JoinsBy(null, []) && m in sems && sems[m].blocked == [] && sems[m].value != m.max
      ensures SignalOn(m, p).Semaphores() && SignalOn(m, p).JoinsBy(null, [])
    {
      var s := SignalOn(m, p);
      assert SemOk(m);
      SemChanged(m, s.sems[m]);
    }

    // ---- joins ----

    lemma JoinRec(t: Thread, u: Thread, p: Process, now: real)
      requires t in threads && u in threads && p in procs
      ensures var s := JoinOn(t, u, p, now);
              && s.threads.Keys == threads.Keys && s.sems == sems
              && s.threads[t].st == Blocked && s.threads[t].joinTo == threads[t].joinTo + [u]
              && (forall x :: x in threads && x != t ==>
                 s.threads[x].st == threads[x].st && s.threads[x].joinTo == threads[x].joinTo)
              && (forall x :: x in threads ==> s.threads[x].joinedBy == if x == u then threads[x].joinedBy + [t]
                 else threads[x].joinedBy)
    {
    }

    lemma JoinJoin(t: Thread, u: Thread, p: Process, now: real, x: Thread)
      requires JoinsBy(null, []) && t in threads && u in threads && p in procs && x in threads
      requires threads[t].st == Executing && threads[u].st != Exited && u.procesoId == t.procesoId
      ensures JoinOn(t, u, p, now).JoinOk(x, null, [])
    {
      var s := JoinOn(t, u, p, now);
      hide *;
      ExecutingJoins(t);
      JoinRec(t, u, p, now);
      JoinAt(x);
      s.IsLinkedWhen(this, t, u);
      s.LinkedTarget(this, t, u, x);
      s.LinkedJoiners(this, t, u, x);
      s.IsJoinOk(x);
    }

    lemma JoinAt(x: Thread)
      requires JoinsBy(null, []) && x in threads
      ensures TargetOk(x, null, []) && JoinersOk(x, null, [])
    {
      assert JoinOk(x, null, []);
    }

    lemma IsJoinOk(x: Thread)
      requires x in threads && TargetOk(x, null, []) && JoinersOk(x, null, [])
      ensures JoinOk(x, null, [])
    {
    }

    lemma IsLinkedWhen(o: Sys, t: Thread, u: Thread)
      requires t in o.threads && u in o.threads && threads.Keys == o.threads.Keys && sems == o.sems
      requires o.threads[t].st == Executing && o.threads[t].joinTo == [] && o.threads[u].st != Exited
               && u.procesoId == t.procesoId
      requires threads[t].st == Blocked && threads[t].joinTo == [u]
      requires forall y :: y in threads && y != t ==>
               threads[y].st == o.threads[y].st && threads[y].joinTo == o.threads[y].joinTo
      requires forall y :: y in threads ==> threads[y].joinedBy == if y == u then o.threads[y].joinedBy + [t]
               else o.threads[y].joinedBy
      ensures IsLinked(o, t, u)
    {
    }

    ghost predicate IsLinked(o: Sys, t: Thread, u: Thread) {
      && t in o.threads && u in o.threads && threads.Keys == o.threads.Keys && sems == o.sems
      && o.threads[t].st == Executing && o.threads[t].joinTo == [] && o.threads[u].st != Exited
      && u.procesoId == t.procesoId
      && threads[t].st == Blocked && threads[t].joinTo == [u]
      && (forall y :: y in threads && y != t ==>
         threads[y].st == o.threads[y].st && threads[y].joinTo == o.threads[y].joinTo)
      && (forall y :: y in threads ==> threads[y].joinedBy == if y == u then o.threads[y].joinedBy + [t]
         else o.threads[y].joinedBy)
    }

    lemma LinkedTarget(o: Sys, t: Thread, u: Thread, x: Thread)
      requires IsLinked(o, t, u) && x in o.threads && o.TargetOk(x, null, [])
      ensures TargetOk(x, null, [])
    {
      WaitingSame(o, x);
      hide Waiting;
    }

    lemma LinkedJoiners(o: Sys, t: Thread, u: Thread, x: Thread)
      requires IsLinked(o, t, u) && x in o.threads && o.JoinersOk(x, null, [])
      ensures JoinersOk(x, null, [])
    {
    }

    lemma WaitingSame(o: Sys, x: Thread)
      requires sems == o.sems
      ensures Waiting(x) <==> o.Waiting(x)
    {
    }

    lemma JoinSem(t: Thread, u: Thread, p: Process, now: real, m: Semaphore)
      requires Semaphores() && t in threads && u in threads && p in procs && m in sems
      requires threads[t].st == Executing
      ensures JoinOn(t, u, p, now).SemOk(m)
    {
      assert SemOk(m);
    }

    lemma JoinKeeps(t: Thread, u: Thread, p: Process, now: real)
      requires Inv() && p in procs && procs[p].exec == t && t in threads && now >= threads[t].burst
               && u in procs[p].ults
      ensures u in threads && JoinOn(t, u, p, now).Inv()
    {
      hide *;
      InvIs();
      CoreIs();
      ListedLive(u, p);
      ExecIs(t, p);
      JoinOnIs(t, u, p, now);
      var s, b := JoinOn(t, u, p, now), Linked(t, u);
      LinkedIs(t, u);
      b.StatusesFrame(this);
      b.CoreIs();
      b.ExecToBlockedCore(t, p, now);
      forall m | m in s.sems ensures s.SemOk(m) {
        JoinSem(t, u, p, now, m);
      }
      JoinRec(t, u, p, now);
      forall x | x in s.threads ensures s.JoinOk(x, null, []) {
        JoinJoin(t, u, p, now, x);
      }
      s.JoinsAll(this);
      s.InvIs();
    }

    lemma JoinsAll(o: Sys)
      requires forall m :: m in sems ==> SemOk(m)
      requires forall x :: x in threads ==> JoinOk(x, null, [])
      requires o.Semaphores() && sems == o.sems
      ensures Semaphores() && JoinsBy(null, [])
    {
    }

    lemma ListedLive(u: Thread, p: Process)
      requires Queues() && p in procs && u in procs[p].ults
      ensures u in threads && threads[u].st != Exited && u.procesoId == p.id
    {
      assert ProcOk(p);
      assert u in Live(p.id);
    }

    lemma LinkedIs(t: Thread, u: Thread)
      requires t in threads && u in threads && Bursts()
      ensures var b := Linked(t, u);
              b.SameStatuses(this) && b.Bursts() && t in b.threads && b.threads[t].burst == threads[t].burst
    {
      var b := Linked(t, u);
      forall x | x in b.threads ensures b.BurstOk(b.threads[x]) {
        BurstAt(x);
        BurstLinked(threads[x], b, b.threads[x]);
      }
      hide BurstOk;
    }

    lemma BurstLinked(r: Rec, s: Sys, e: Rec)
      requires BurstOk(r) && s.alpha == alpha && e == r.(joinTo := e.joinTo, joinedBy := e.joinedBy)
      ensures s.BurstOk(e)
    {
    }

    lemma JoinOnIs(t: Thread, u: Thread, p: Process, now: real)
      requires t in threads && u in threads && p in procs
      ensures var b := Linked(t, u);
              t in b.threads && p in b.procs && b.procs == procs && JoinOn(t, u, p, now) == b.ExecToBlocked(t, p, now)
      ensures JoinOn(t, u, p, now).sems == sems
    {
    }

    // ---- closing ----

    /** The joiner `t` of the thread `u` that is being closed has been released. */
    ghost predicate IsReleased(o: Sys, t: Thread) {
      && t in o.threads && threads.Keys == o.threads.Keys && sems == o.sems
      && threads[t].st in {Ready, New} && threads[t].joinTo == []
      && (forall y :: y in threads && y != t ==> threads[y] == o.threads[y])
      && threads[t].joinedBy == o.threads[t].joinedBy
    }

    lemma ReleasedTarget(o: Sys, t: Thread, u: Thread, rest: seq<Thread>, x: Thread)
      requires IsReleased(o, t) && x in o.threads && o.TargetOk(x, u, [t] + rest)
      ensures TargetOk(x, u, rest)
    {
      WaitingSame(o, x);
      hide Waiting;
    }

    lemma ReleasedJoiners(o: Sys, t: Thread, u: Thread, rest: seq<Thread>, x: Thread)
      requires IsReleased(o, t) && x in o.threads && o.JoinersOk(x, u, [t] + rest) && o.threads[t].joinTo == [u]
               && o.threads[t].st != Exited
      ensures JoinersOk(x, u, rest)
    {
      if x == u && threads[x].st != Exited {
        var js := [t] + rest;
        assert Distinct(js);
        forall i, j | 0 <= i < j < |rest| ensures rest[i] != rest[j] {
          assert js[i + 1] != js[j + 1];
        }
        forall y | y in rest ensures y in threads && threads[y].joinTo == [u] {
          var i :| 0 <= i < |rest| && rest[i] == y;
          assert js[i + 1] == y && js[0] == t;
          assert y in js;
        }
      }
    }

    lemma ReleasedSem(o: Sys, t: Thread, m: Semaphore)
      requires IsReleased(o, t) && m in o.sems && o.SemOk(m) && o.threads[t].joinTo != []
      ensures SemOk(m)
    {
    }

    lemma ReleasedWaits(o: Sys, t: Thread, u: Thread, rest: seq<Thread>)
      requires IsReleased(o, t) && o.Semaphores() && o.JoinsBy(u, [t] + rest) && o.threads[t].joinTo == [u]
               && o.threads[t].st != Exited
      ensures Semaphores() && JoinsBy(u, rest)
    {
      hide TargetOk, JoinersOk, SemOk;
      forall m | m in sems ensures SemOk(m) {
        ReleasedSem(o, t, m);
      }
      forall x | x in threads ensures JoinOk(x, u, rest) {
        assert o.JoinOk(x, u, [t] + rest);
        ReleasedTarget(o, t, u, rest, x);
        ReleasedJoiners(o, t, u, rest, x);
      }
    }

    /** What the joins say of the first joiner of a thread that is being closed. */
    lemma JoinerFacts(u: Thread, t: Thread, rest: seq<Thread>)
      requires JoinsBy(u, [t] + rest) && u in threads && threads[u].st != Exited
      ensures t in threads && threads[t].joinTo == [u] && threads[t].st == Blocked && u.procesoId == t.procesoId
      ensures forall y :: y in rest ==> y in threads && y != t
    {
      var js := [t] + rest;
      assert JoinOk(u, u, js);
      assert js[0] == t && t in js;
      assert JoinOk(t, u, js);
      forall y | y in rest ensures y in threads && y != t {
        var i :| 0 <= i < |rest| && rest[i] == y;
        assert js[i + 1] == y && y in js;
      }
    }

    lemma BackToNewCore(t: Thread, p: Process)
      requires Core() && t in threads && threads[t].st == Blocked && p in procs && p.id == t.procesoId
      ensures BackToNew(t).Core()
    {
      hide Names, Queues, Bursts, DropThread, Active, Average, Enumerates, Of, All, Live, BurstOk;
      var s := BackToNew(t);
      ThreadFacts(t, p);
      BlockedStay();
      AppendEnumerates(newQueue, All(New), t);
      AfterOut(Of(p.id, Ready), t);
      AfterOut(Of(p.id, Executing), t);
      assert procs[p := procs[p]] == procs;
      s.Queued(this, t, p);
      s.CountAfter(this, t);
      BurstAt(t);
      StillFinished(threads[t], New);
      BurstSame(s, s.threads[t]);
      s.BurstsAfter(this, t);
    }

    lemma UnlinkedCore(t: Thread)
      requires Core() && t in threads
      ensures Moved(t, threads[t].(joinTo := [])).Core()
    {
      hide Names, Queues, Counted, Bursts, BurstOk;
      var s := Moved(t, threads[t].(joinTo := []));
      BurstAt(t);
      BurstLinked(threads[t], s, s.threads[t]);
      s.BurstsAfter(this, t);
      s.StatusesFrame(this);
    }

    lemma UnjoinIs(u: Thread, t: Thread, p: Process)
      requires t in threads && p in procs && threads[t].joinTo == [u]
      ensures var a, s := Moved(t, threads[t].(joinTo := [])), Unjoin(u, t, p);
              && t in a.threads && a.threads[t].st == threads[t].st && a.procs == procs
              && s == (if Admits() then a.BlockedToReady(t, p) else a.BackToNew(t))
              && s.IsReleased(this, t) && s.procs.Keys == procs.Keys
              && s.threads[t].st == (if Admits() then Ready else New) && s.actual == actual && s.limit == limit
    {
      assert DropTid([u], u.tid) == [];
    }

    lemma UnjoinKeeps(u: Thread, t: Thread, p: Process, rest: seq<Thread>)
      requires Core() && Semaphores() && JoinsBy(u, [t] + rest) && u in threads && threads[u].st != Exited && p in procs
               && p.id == u.procesoId
      ensures t in threads && Unjoin(u, t, p).IsReleased(this, t) && Unjoin(u, t, p).procs.Keys == procs.Keys
      ensures var s := Unjoin(u, t, p);
              && s.Core() && s.Semaphores() && s.JoinsBy(u, rest)
              && s.threads[t].st == (if Admits() then Ready else New) && s.actual == actual && s.limit == limit
      ensures forall y :: y in rest ==> y in threads && y != t
      ensures threads[t].st == Blocked && u != t ==> Unjoin(u, t, p).threads[u] == threads[u]
    {
      hide Core, Semaphores, JoinsBy, Unjoin, BlockedToReady, BackToNew, TargetOk, JoinersOk;
      JoinerFacts(u, t, rest);
      UnjoinIs(u, t, p);
      UnlinkedCore(t);
      var a := Moved(t, threads[t].(joinTo := []));
      if Admits() {
        a.BlockedToReadyCore(t, p);
      } else {
        a.BackToNewCore(t, p);
      }
      Unjoin(u, t, p).ReleasedWaits(this, t, u, rest);
    }

    /** Of the threads only the joiners `js` have changed, from BLOCKED to status `k`. */
    ghost predicate HasReleased(o: Sys, js: seq<Thread>, k: Status) {
      && threads.Keys == o.threads.Keys && procs.Keys == o.procs.Keys && actual == o.actual && limit == o.limit
      && (forall y :: y in o.threads && y !in js ==> threads[y] == o.threads[y])
      && (forall y :: y in js ==> y in o.threads && o.threads[y].st == Blocked && threads[y].st == k)
    }

    /** Closing a thread releases its joiners one by one and touches no other thread. */
    lemma {:induction false} UnjoinAllKeeps(u: Thread, js: seq<Thread>, p: Process)
      requires Core() && Semaphores() && JoinsBy(u, js) && u in threads && threads[u].st in {Ready, Executing}
               && p in procs && p.id == u.procesoId
      ensures forall i :: 0 <= i < |js| ==> js[i] in threads
      ensures var s := UnjoinAll(u, js, p);
              && s.Core() && s.Semaphores() && s.JoinsBy(u, [])
              && s.HasReleased(this, js, if Admits() then Ready else New)
      decreases |js|
    {
      hide *;
      if js == [] {
        NoneReleased(if Admits() then Ready else New);
        UnjoinAllNone(u, p);
      } else {
        assert js == [js[0]] + js[1..];
        var t, rest := js[0], js[1..];
        JoinerFacts(u, t, rest);
        UnjoinKeeps(u, t, p, rest);
        var s := Unjoin(u, t, p);
        s.UnjoinAllKeeps(u, rest, p);
        UnjoinAllHead(u, js, p);
        AdmitsAlike(s);
        s.UnjoinAll(u, rest, p).MoreReleased(this, s, js, if Admits() then Ready else New);
      }
    }

    lemma NoneReleased(k: Status)
      ensures HasReleased(this, [], k)
    {
    }

    lemma UnjoinAllNone(u: Thread, p: Process)
      requires p in procs
      ensures UnjoinAll(u, [], p) == this
    {
    }

    lemma AdmitsAlike(s: Sys)
      requires s.actual == actual && s.limit == limit
      ensures s.Admits() <==> Admits()
    {
    }

    lemma MoreReleased(o: Sys, s: Sys, js: seq<Thread>, k: Status)
      requires js != [] && js[0] in o.threads && o.threads[js[0]].st == Blocked && s.IsReleased(o, js[0])
               && s.threads[js[0]].st == k
      requires s.procs.Keys == o.procs.Keys && s.actual == o.actual && s.limit == o.limit
      requires forall y :: y in js[1..] ==> y in o.threads && y != js[0]
      requires HasReleased(s, js[1..], k)
      ensures HasReleased(o, js, k)
    {
      forall y | y in js && y != js[0] ensures y in js[1..] {
        var i :| 0 <= i < |js| && js[i] == y;
        assert js[1..][i - 1] == y;
      }
    }

    lemma ReleasedFacts(o: Sys, js: seq<Thread>, k: Status)
      requires HasReleased(o, js, k)
      ensures threads.Keys == o.threads.Keys && procs.Keys == o.procs.Keys && actual == o.actual && limit == o.limit
      ensures forall y :: y in o.threads && y !in js ==> threads[y] == o.threads[y]
      ensures forall y :: y in js ==> y in o.threads && o.threads[y].st == Blocked && threads[y].st == k
    {
    }

    /** The thread `t`, which is not blocked, has exited. */
    ghost predicate IsExited(o: Sys, t: Thread) {
      && t in o.threads && o.threads[t].st in {Ready, Executing} && sems == o.sems
      && threads == o.threads[t := o.threads[t].(st := Exited)]
    }

    lemma ExitedJoin(o: Sys, t: Thread, x: Thread)
      requires IsExited(o, t) && o.JoinsBy(t, []) && x in o.threads
      ensures JoinOk(x, null, [])
    {
      assert o.JoinOk(x, t, []);
      assert o.JoinOk(t, t, []);
      WaitingSame(o, x);
      hide Waiting;
    }

    lemma ExitedSem(o: Sys, t: Thread, m: Semaphore)
      requires IsExited(o, t) && m in o.sems && o.SemOk(m)
      ensures SemOk(m)
    {
    }

    lemma ExitedWaits(o: Sys, t: Thread)
      requires IsExited(o, t) && o.Semaphores() && o.JoinsBy(t, [])
      ensures Semaphores() && JoinsBy(null, [])
    {
      hide JoinOk, SemOk;
      forall m | m in sems ensures SemOk(m) {
        ExitedSem(o, t, m);
      }
      forall x | x in threads ensures JoinOk(x, null, []) {
        ExitedJoin(o, t, x);
      }
    }

    lemma ReadyToExitCore(t: Thread, p: Process)
      requires Core() && t in threads && threads[t].st == Ready && p in procs && p.id == t.procesoId
      ensures ReadyToExit(t, p).Core()
    {
      hide Names, Queues, Bursts, DropThread, DropTid, Active, Average, Enumerates, Of, All, Live, BurstOk;
      var s := ReadyToExit(t, p);
      ThreadFacts(t, p);
      BlockedStay();
      DropTidIs(procs[p].ults, t);
      DropTidIs(procs[p].ready, t);
      DropEnumerates(procs[p].ults, Live(p.id), t);
      DropEnumerates(procs[p].ready, Of(p.id, Ready), t);
      AfterOut(All(New), t);
      AfterOut(Of(p.id, Executing), t);
      s.Queued(this, t, p);
      s.CountAfter(this, t);
      BurstAt(t);
      ExitedBurst(threads[t]);
      BurstSame(s, s.threads[t]);
      s.BurstsAfter(this, t);
    }

    lemma ExecToExitCore(t: Thread, p: Process)
      requires Core() && t in threads && p in procs && procs[p].exec == t
      ensures ExecToExit(t, p).Core()
    {
      hide Names, Queues, Bursts, DropThread, DropTid, Active, Average, Enumerates, Of, All, Live, BurstOk;
      var s := ExecToExit(t, p);
      ExecIs(t, p);
      ThreadFacts(t, p);
      BlockedStay();
      DropTidIs(procs[p].ults, t);
      DropEnumerates(procs[p].ults, Live(p.id), t);
      AfterOut(All(New), t);
      AfterOut(Of(p.id, Ready), t);
      assert {t} - {t} == {};
      s.Queued(this, t, p);
      s.CountAfter(this, t);
      BurstAt(t);
      ExitedBurst(threads[t]);
      BurstSame(s, s.threads[t]);
      s.BurstsAfter(this, t);
    }

    lemma ExitedBurst(r: Rec)
      requires BurstOk(r) && r.st in {Ready, Executing}
      ensures BurstOk(r.(st := Exited))
    {
    }

    lemma ExecOf(t: Thread, p: Process)
      requires Queues() && t in threads && threads[t].st == Executing && p in procs && p.id == t.procesoId
      ensures procs[p].exec == t
    {
      assert ProcOk(p);
      assert t in Of(p.id, Executing);
    }

    lemma EndedKeeps(t: Thread, p: Process)
      requires Core() && Semaphores() && JoinsBy(t, []) && t in threads && threads[t].st in {Ready, Executing}
      requires p in procs && p.id == t.procesoId
      ensures Ended(t, p).Inv() && Ended(t, p).IsExited(this, t)
      ensures Ended(t, p).actual == actual - 1 && Ended(t, p).limit == limit && Ended(t, p).procs.Keys == procs.Keys
    {
      EndedIs(t, p);
      hide *;
      CoreIs();
      if threads[t].st == Ready {
        ReadyToExitCore(t, p);
      } else {
        ExecOf(t, p);
        ExecToExitCore(t, p);
      }
      Ended(t, p).ExitedWaits(this, t);
      Ended(t, p).InvIs();
    }

    lemma EndedIs(t: Thread, p: Process)
      requires t in threads && threads[t].st in {Ready, Executing} && p in procs
      ensures Ended(t, p) == if threads[t].st == Ready then ReadyToExit(t, p) else ExecToExit(t, p)
      ensures Ended(t, p).IsExited(this, t)
      ensures Ended(t, p).actual == actual - 1 && Ended(t, p).limit == limit && Ended(t, p).procs.Keys == procs.Keys
    {
    }

    lemma JoinsFrom(t: Thread)
      requires t in threads
      ensures JoinsBy(null, []) <==> JoinsBy(t, threads[t].joinedBy)
    {
      forall x | x in threads ensures JoinOk(x, null, []) <==> JoinOk(x, t, threads[t].joinedBy) {
      }
    }

    /** Thread `t` has exited, its joiners have been released, to READY or, at the limit of the
        multiprogramming degree, to NEW, and no other thread has changed. */
    ghost predicate HasClosed(o: Sys, t: Thread)
      requires t in o.threads
    {
      var js := o.threads[t].joinedBy;
      && threads.Keys == o.threads.Keys && procs.Keys == o.procs.Keys && actual == o.actual - 1 && limit == o.limit
      && threads[t].st == Exited
      && (forall y :: y in o.threads && y !in js && y != t ==> threads[y] == o.threads[y])
      && (forall y :: y in js ==>
         y in o.threads && o.threads[y].st == Blocked
         && threads[y].st == if o.Admits() then Ready else New)
    }

    /** Closing a READY or executing thread keeps the invariant.  Its joiners are released, to
        READY or, at the limit of the multiprogramming degree, to NEW; no other thread changes
        but the one closed. */
    lemma LeavingKeeps(t: Thread, p: Process)
      requires Inv() && t in threads && threads[t].st in {Ready, Executing} && p in procs && p.id == t.procesoId
      ensures forall i :: 0 <= i < |threads[t].joinedBy| ==> threads[t].joinedBy[i] in threads
      ensures Leaving(t, p).Inv() && Leaving(t, p).HasClosed(this, t)
    {
      hide *;
      InvIs();
      JoinsFrom(t);
      var js := threads[t].joinedBy;
      UnjoinAllKeeps(t, js, p);
      var a := UnjoinAll(t, js, p);
      NotOwnJoiner(t);
      a.ReleasedFacts(this, js, if Admits() then Ready else New);
      a.EndedKeeps(t, p);
      LeavingIs(t, p);
      ExitedRec(a, Leaving(t, p), t);
      Leaving(t, p).ClosedWhen(this, a, t);
    }

    lemma ClosedWhen(o: Sys, a: Sys, t: Thread)
      requires t in o.threads && t !in o.threads[t].joinedBy
      requires a.HasReleased(o, o.threads[t].joinedBy, if o.Admits() then Ready else New)
      requires threads.Keys == a.threads.Keys && procs.Keys == a.procs.Keys && actual == a.actual - 1
               && limit == a.limit
      requires t in threads && threads[t].st == Exited && forall y :: y in a.threads && y != t ==>
               threads[y] == a.threads[y]
      ensures HasClosed(o, t)
    {
    }

    lemma ClosedFacts(o: Sys, t: Thread)
      requires t in o.threads && HasClosed(o, t)
      ensures threads.Keys == o.threads.Keys && procs.Keys == o.procs.Keys && actual == o.actual - 1 && limit == o.limit
      ensures threads[t].st == Exited
      ensures forall y :: y in o.threads && y !in o.threads[t].joinedBy && y != t ==> threads[y] == o.threads[y]
      ensures forall y :: y in o.threads[t].joinedBy ==>
                y in o.threads && o.threads[y].st == Blocked && threads[y].st == if o.Admits() then Ready else New
    {
    }

    lemma ExitedRec(o: Sys, s: Sys, t: Thread)
      requires s.IsExited(o, t)
      ensures s.threads.Keys == o.threads.Keys && s.threads[t].st == Exited
      ensures forall y :: y in o.threads && y != t ==> s.threads[y] == o.threads[y]
    {
    }

    lemma NotOwnJoiner(t: Thread)
      requires JoinsBy(null, []) && t in threads && threads[t].st in {Ready, Executing}
      ensures t !in threads[t].joinedBy
      ensures forall i :: 0 <= i < |threads[t].joinedBy| ==> threads[t].joinedBy[i] in threads
    {
      assert JoinOk(t, null, []);
    }

    lemma LeavingIs(t: Thread, p: Process)
      requires t in threads && p in procs && forall i :: 0 <= i < |threads[t].joinedBy| ==>
               threads[t].joinedBy[i] in threads
      ensures var a := UnjoinAll(t, threads[t].joinedBy, p);
              t in a.threads && p in a.procs && Leaving(t, p) == a.Ended(t, p)
    {
      UnjoinAllKeys(t, threads[t].joinedBy, p);
    }

    lemma HeadIsNew()
      requires Queues() && newQueue != []
      ensures newQueue[0] in threads && threads[newQueue[0]].st == New
    {
      assert newQueue[0] in All(New);
    }

    lemma AdmittedKeeps(q: Process?)
      requires Inv() && (newQueue != [] ==> q != null && q in procs && q.id == newQueue[0].procesoId)
      ensures newQueue != [] ==> newQueue[0] in threads
      ensures Admitted(q).Inv()
    {
      if newQueue != [] {
        HeadIsNew();
        if Admits() {
          NewToReadyKeeps(newQueue[0], q);
        }
      }
    }

    // ---- creation ----

    lemma AddProcessKeeps(p: Process)
      requires Inv() && p !in procs && forall q :: q in procs ==> q.id != p.id
      ensures AddProcess(p).Inv()
    {
      var s := AddProcess(p);
      AddProcessQueues(p);
      AddProcessRest(p);
      hide *;
      InvIs();
      CoreIs();
      s.WaitsFrame(this, null, []);
      s.CoreIs();
      s.InvIs();
    }

    lemma AddProcessQueues(p: Process)
      requires Inv() && p !in procs && forall q :: q in procs ==> q.id != p.id
      ensures AddProcess(p).Names() && AddProcess(p).Queues()
    {
      AddProcessProcs(p);
      hide *;
      InvIs();
      CoreIs();
      AddProcessNames(p);
      AddProcessLists(p);
    }

    lemma AddProcessNames(p: Process)
      requires Names() && forall q :: q in procs ==> q.id != p.id
      ensures AddProcess(p).Names()
    {
      forall t | t in threads ensures exists q :: q in AddProcess(p).procs && q.id == t.procesoId {
        var q := HasProcess(t);
        assert q in AddProcess(p).procs;
      }
    }

    lemma AddProcessLists(p: Process)
      requires Queues() && forall q :: q in AddProcess(p).procs ==> AddProcess(p).ProcOk(q)
      ensures AddProcess(p).Queues()
    {
      hide Enumerates, ProcOk;
      assert AddProcess(p).All(New) == All(New);
    }

    lemma AddProcessRest(p: Process)
      requires Inv() && p !in procs
      ensures AddProcess(p).Counted() && AddProcess(p).Bursts() && AddProcess(p).SameWaits(this)
    {
      hide *;
      InvIs();
      CoreIs();
      AddProcessCount(p);
      AddProcessBursts(p);
    }

    lemma AddProcessCount(p: Process)
      requires Counted()
      ensures AddProcess(p).Counted() && AddProcess(p).SameWaits(this)
    {
      assert AddProcess(p).Active() == Active();
    }

    lemma AddProcessBursts(p: Process)
      requires Bursts()
      ensures AddProcess(p).Bursts()
    {
      var s := AddProcess(p);
      forall t | t in s.threads ensures s.BurstOk(s.threads[t]) {
        BurstAt(t);
        BurstSame(s, threads[t]);
      }
      hide BurstOk;
    }

    lemma AddProcessProcs(p: Process)
      requires Inv() && p !in procs && forall q :: q in procs ==> q.id != p.id
      ensures forall q :: q in AddProcess(p).procs ==> AddProcess(p).ProcOk(q)
    {
      var s := AddProcess(p);
      hide BurstOk, SemOk, JoinOk, Enumerates;
      forall q | q in s.procs ensures s.ProcOk(q) {
        assert s.Live(q.id) == Live(q.id) && s.Of(q.id, Ready) == Of(q.id, Ready)
          && s.Of(q.id, Executing) == Of(q.id, Executing);
        if q == p {
          assert s.Live(q.id) == {} && s.Of(q.id, Ready) == {} && s.Of(q.id, Executing) == {};
          EnumeratesNone();
        } else {
          assert ProcOk(q);
        }
      }
    }

    lemma EnumeratesNone()
      ensures Enumerates<Thread>([], {})
    {
    }

    lemma AddThreadSets(t: Thread, p: Process)
      requires p in procs && t !in threads && t.procesoId == p.id
      ensures var s := AddThread(t, p);
              && s.Live(p.id) == Live(p.id) + {t} && s.Of(p.id, Ready) == Of(p.id, Ready)
              && s.Of(p.id, Executing) == Of(p.id, Executing) && s.All(New) == All(New) + {t}
      ensures t !in Live(p.id) && t !in All(New)
      ensures AddThread(t, p).Active() == Active()
    {
    }

    lemma AddThreadNames(t: Thread, p: Process)
      requires Names() && Queues() && p in procs && t !in threads && t.procesoId == p.id
      requires forall u :: u in procs[p].ults ==> u.tid != t.tid
      ensures AddThread(t, p).Names()
    {
      OthersNamed(t, p);
      hide Queues;
    }

    lemma OthersNamed(t: Thread, p: Process)
      requires Queues() && p in procs && t.procesoId == p.id
      requires forall u :: u in procs[p].ults ==> u.tid != t.tid
      ensures forall u :: u in threads && threads[u].st != Exited && u.procesoId == t.procesoId ==> u.tid != t.tid
    {
      assert ProcOk(p);
      forall u | u in threads && threads[u].st != Exited && u.procesoId == t.procesoId ensures u.tid != t.tid {
        assert u in Live(p.id) && u in procs[p].ults;
      }
    }

    lemma ProcFacts(p: Process)
      requires Queues() && p in procs
      ensures Enumerates(procs[p].ults, Live(p.id))
      ensures Enumerates(procs[p].ready, Of(p.id, Ready)) && procs[p].permits == |procs[p].ready|
      ensures Of(p.id, Executing) == if procs[p].exec == null then {} else {procs[p].exec}
      ensures Enumerates(newQueue, All(New))
    {
      assert ProcOk(p);
    }

    lemma AddThreadQueues(t: Thread, p: Process)
      requires Names() && Queues() && p in procs && t !in threads && t.procesoId == p.id
      requires forall u :: u in procs[p].ults ==> u.tid != t.tid
      ensures AddThread(t, p).Names() && AddThread(t, p).Queues()
    {
      hide Enumerates, Of, Live, All, Names, Queues, ProcOk;
      var s := AddThread(t, p);
      AddThreadNames(t, p);
      AddThreadSets(t, p);
      ProcFacts(p);
      BlockedStay();
      AppendEnumerates(procs[p].ults, Live(p.id), t);
      AppendEnumerates(newQueue, All(New), t);
      s.IsProcOk(p);
      s.ElsewhereOk(this, p);
    }

    lemma AddThreadKeeps(t: Thread, p: Process)
      requires Inv() && p in procs && t !in threads && t.procesoId == p.id
      requires forall u :: u in procs[p].ults ==> u.tid != t.tid
      ensures AddThread(t, p).Inv()
    {
      hide Names, Queues, BurstOk, Average, SemOk, JoinOk;
      var s := AddThread(t, p);
      AddThreadQueues(t, p);
      assert s.Active() == Active();
      NewBurst();
      forall u | u in s.threads ensures s.BurstOk(s.threads[u]) {
        if u != t {
          BurstAt(u);
          BurstSame(s, threads[u]);
        } else {
          BurstSame(s, s.threads[t]);
        }
      }
      s.WaitsFrame(this, null, []);
    }

    lemma NewBurst()
      ensures BurstOk(Rec(New, 0.0, 0.0, false, [], [], []))
    {
    }

    // ---- the places of the multiprogramming degree ----

    lemma {:induction false} UnjoinAllCount(u: Thread, js: seq<Thread>, p: Process)
      requires Core() && Semaphores() && JoinsBy(u, js) && u in threads && threads[u].st in {Ready, Executing}
               && p in procs && p.id == u.procesoId
      ensures forall i :: 0 <= i < |js| ==> js[i] in threads
      ensures |UnjoinAll(u, js, p).Active()| == |Active()| - if Admits() then 0 else |js|
      decreases |js|
    {
      hide Core, Semaphores, JoinsBy, Unjoin, TargetOk, JoinersOk, Active, IsReleased;
      if js != [] {
        assert js == [js[0]] + js[1..];
        var t, rest := js[0], js[1..];
        JoinerFacts(u, t, rest);
        UnjoinKeeps(u, t, p, rest);
        var s := Unjoin(u, t, p);
        ReleasedMap(s, t);
        s.CountAfter(this, t);
        s.UnjoinAllCount(u, rest, p);
      }
    }

    lemma ReleasedMap(s: Sys, t: Thread)
      requires s.IsReleased(this, t)
      ensures t in s.threads && s.threads == threads[t := s.threads[t]]
      ensures forall y :: y in threads && y != t ==> s.threads[y] == threads[y]
    {
    }

    /** Closing a thread loses no place of the multiprogramming degree exactly when there was
        a place to spare or nobody had joined the thread. */
    lemma LeavingTightIff(t: Thread, p: Process)
      requires Inv() && |Active()| == actual && t in threads && threads[t].st in {Ready, Executing} && p in procs
               && p.id == t.procesoId
      ensures forall i :: 0 <= i < |threads[t].joinedBy| ==> threads[t].joinedBy[i] in threads
      ensures |Leaving(t, p).Active()| == Leaving(t, p).actual <==> Admits() || threads[t].joinedBy == []
    {
      hide *;
      InvIs();
      JoinsFrom(t);
      NotOwnJoiner(t);
      var js := threads[t].joinedBy;
      var a := UnjoinAll(t, js, p);
      UnjoinAllCount(t, js, p);
      UnjoinAllKeeps(t, js, p);
      a.ReleasedFacts(this, js, if Admits() then Ready else New);
      LeavingIs(t, p);
      a.EndedKeeps(t, p);
      ExitedMap(a, Leaving(t, p), t);
      Leaving(t, p).CountAfter(a, t);
      Leaving(t, p).WeightIs(t);
      a.WeightIs(t);
    }

    lemma ExitedMap(o: Sys, s: Sys, t: Thread)
      requires s.IsExited(o, t)
      ensures t in s.threads && s.threads == o.threads[t := s.threads[t]] && s.threads[t].st == Exited
    {
    }

    lemma WeightIs(t: Thread)
      requires t in threads
      ensures Weight(threads[t]) == if threads[t].st in {Ready, Executing, Blocked} then 1 else 0
    {
    }

    lemma WaitOnEq(m: Semaphore, t: Thread, p: Process, now: real, mid: Sys, r: Sys)
      requires m in sems && t in threads && p in procs && m in mid.sems
      requires mid == if sems[m].value > 0 then this else
                 ExecToBlocked(t, p, now).(sems := sems[m := sems[m].(blocked := sems[m].blocked + [t],
                   asked := sems[m].asked + [t])])
      requires r == mid.(sems := mid.sems[m := mid.sems[m].(value := mid.sems[m].value - 1,
               waits := mid.sems[m].waits + 1)])
      ensures r == WaitOn(m, t, p, now)
    {
    }

    lemma SignalOnEq(m: Semaphore, p: Process?, r: Sys)
      requires m in sems && sems[m].value != m.max
      requires sems[m].blocked != [] ==> sems[m].blocked[0] in threads && p != null && p in procs
      requires r == (if sems[m].blocked == [] then this else BlockedToReady(sems[m].blocked[0], p)).(sems := r.sems)
      requires var e := sems[m].(value := sems[m].value + 1, signals := sems[m].signals + 1);
               r.sems == sems[m := if e.blocked == [] then e
                 else e.(blocked := e.blocked[1..], woken := e.woken + [e.blocked[0]])]
      ensures r == SignalOn(m, p)
    {
    }

    lemma BlockedToReadySems(t: Thread, p: Process, ms: map<Semaphore, Sem>)
      requires t in threads && p in procs
      ensures this.(sems := ms).BlockedToReady(t, p) == BlockedToReady(t, p).(sems := ms)
    {
    }

    lemma UnjoinEq(u: Thread, t: Thread, p: Process, a: Sys)
      requires t in threads && p in procs && a == Moved(t, threads[t].(joinTo := DropTid(threads[t].joinTo, u.tid)))
      ensures t in a.threads && a.procs == procs && a.actual == actual && a.limit == limit
      ensures a.threads[t].joinTo != [] ==> Unjoin(u, t, p) == a
      ensures a.threads[t].joinTo == [] ==> Unjoin(u, t, p) == if Admits() then a.BlockedToReady(t, p)
              else a.BackToNew(t)
    {
    }

    lemma UnjoinAllHead(u: Thread, js: seq<Thread>, p: Process)
      requires p in procs && forall i :: 0 <= i < |js| ==> js[i] in threads
      ensures js == [] ==> UnjoinAll(u, js, p) == this
      ensures js != [] ==>
                && Unjoin(u, js[0], p).threads.Keys == threads.Keys && Unjoin(u, js[0], p).procs.Keys == procs.Keys
                && UnjoinAll(u, js, p) == Unjoin(u, js[0], p).UnjoinAll(u, js[1..], p)
    {
    }

    lemma AdmitsIs()
      ensures Admits() <==> limit >= actual + 1
    {
    }

    lemma MovedJoinTo(o: Sys, u: Thread, t: Thread)
      requires t in o.threads
               && this == o.(threads := o.threads[t := o.threads[t].(joinTo := DropTid(o.threads[t].joinTo, u.tid))])
      ensures this == o.Moved(t, o.threads[t].(joinTo := DropTid(o.threads[t].joinTo, u.tid)))
    {
    }

    lemma AdmitNextIs(q: Process?)
      requires newQueue != [] ==> newQueue[0] in threads && q != null && q in procs
      ensures AdmitNext(q) == if newQueue == [] then this else NewToReady(newQueue[0], q)
    {
    }

    lemma AdmittedIs(q: Process?)
      requires newQueue != [] ==> newQueue[0] in threads && q != null && q in procs
      ensures Admitted(q) == if Admits() then AdmitNext(q) else this
    {
    }

    lemma AdmittedExited(q: Process?, t: Thread)
      requires Inv() && t in threads && threads[t].st == Exited
      requires newQueue != [] ==> newQueue[0] in threads && q != null && q in procs
      ensures t in Admitted(q).threads && Admitted(q).threads[t].st == Exited
    {
      if newQueue != [] {
        HeadIsNew();
      }
    }

    lemma UnjoinAllSpares(t: Thread, p: Process)
      requires Inv() && t in threads && threads[t].st in {Ready, Executing} && p in procs && p.id == t.procesoId
      ensures forall i :: 0 <= i < |threads[t].joinedBy| ==> threads[t].joinedBy[i] in threads
      ensures t in UnjoinAll(t, threads[t].joinedBy, p).threads
      ensures UnjoinAll(t, threads[t].joinedBy, p).threads[t] == threads[t]
    {
      hide *;
      InvIs();
      JoinsFrom(t);
      NotOwnJoiner(t);
      UnjoinAllKeeps(t, threads[t].joinedBy, p);
      UnjoinAll(t, threads[t].joinedBy, p).ReleasedFacts(this, threads[t].joinedBy, if Admits() then Ready else New);
    }

    lemma EndedEq(t: Thread, p: Process)
      requires t in threads && p in procs
      ensures Ended(t, p) == if threads[t].st == Ready then ReadyToExit(t, p) else ExecToExit(t, p)
    {
    }

    lemma JoinerOf(u: Thread, t: Thread)
      requires JoinsBy(null, []) && u in threads && threads[u].st != Exited && t in threads[u].joinedBy
      ensures t in threads && t.procesoId == u.procesoId && threads[t].st == Blocked
    {
      assert JoinOk(u, null, []) && JoinOk(t, null, []);
    }

    lemma SemBlocked(m: Semaphore, t: Thread)
      requires Semaphores() && m in sems && t in sems[m].blocked
      ensures t in threads && threads[t].st == Blocked
    {
      assert SemOk(m);
    }

    /** A thread is found by its tid and a process by its id. */
    lemma Unique(p: Process, t: Thread, u: Thread)
      requires Names() && Queues() && p in procs && t in procs[p].ults && u in procs[p].ults && t.tid == u.tid
      ensures t == u
    {
      ListedLive(t, p);
      ListedLive(u, p);
    }

    lemma ExecListed(p: Process)
      requires Names() && Queues() && p in procs && procs[p].exec != null
      ensures procs[p].exec in procs[p].ults && procs[p].exec in threads && procs[p].exec.procesoId == p.id
    {
      ExecIs(procs[p].exec, p);
      ProcFacts(p);
      assert procs[p].exec in Live(p.id);
    }

    lemma OneProcess(p: Process, q: Process)
      requires Names() && p in procs && q in procs && p.id == q.id
      ensures p == q
    {
    }

    lemma HasProcess(t: Thread) returns (p: Process)
      requires Names() && t in threads
      ensures p in procs && p.id == t.procesoId
    {
      p :| p in procs && p.id == t.procesoId;
    }
  }
}
