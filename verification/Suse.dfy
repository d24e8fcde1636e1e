/** The imperative scheduler.  Every request handler is tied to a step of `SuseRuns`. */
module Suse {
  import opened Sequences
  import opened SuseRecords
  import opened SuseState
  import opened SuseRuns

  ghost function RecOf(t: Thread): Rec
    reads t
  {
    Rec(t.estado, t.duracionRafaga, t.estimacion, t.ejecutado, t.bursts, t.joinedBy, t.joinTo)
  }

  ghost function ProcOf(p: Process): Proc
    reads p
  {
    Proc(p.ults, p.readyList, p.exec, p.semaforoReady)
  }

  ghost function SemOf(m: Semaphore): Sem
    reads m
  {
    Sem(m.value, m.blockedList, m.signals, m.waits, m.asked, m.woken)
  }

  class Suse {
    const maxMultiprog: int
    const alpha: real
    const semaphores: seq<Semaphore>
    var actualMultiprog: int
    var processes: seq<Process>
    var newQueue: seq<Thread>
    var blockedQueue: seq<Thread>
    var exitQueue: seq<Thread>
    ghost var threads: set<Thread>

    ghost function Threads(): map<Thread, Rec>
      reads `threads, threads
    {
      map t | t in threads :: RecOf(t)
    }

    ghost function Procs(): map<Process, Proc>
      reads `processes, processes
    {
      map p | p in processes :: ProcOf(p)
    }

    ghost function Sems(): map<Semaphore, Sem>
      reads semaphores
    {
      map m | m in semaphores :: SemOf(m)
    }

    ghost function Snapshot(): Sys
      reads this, threads, processes, semaphores
    {
      Sys(Threads(), Procs(), Sems(), newQueue, blockedQueue, exitQueue, actualMultiprog, maxMultiprog, alpha)
    }

    /** The invariant holds between requests. */
    ghost predicate Valid()
      reads this, threads, processes, semaphores
    {
      Snapshot().Inv()
    }

    constructor (maxMultiprog: int, alpha: real, semaphores: seq<Semaphore>)
      requires 0 <= maxMultiprog
      requires forall m :: m in semaphores ==> 0 <= m.init <= m.max && SemOf(m) == Sem(m.init, [], 0, 0, [], [])
      ensures Valid() && Initial(Snapshot()) && this.maxMultiprog == maxMultiprog && this.alpha == alpha
              && this.semaphores == semaphores
    {
      this.maxMultiprog, this.alpha, this.semaphores := maxMultiprog, alpha, semaphores;
      actualMultiprog, processes, newQueue, blockedQueue, exitQueue, threads := 0, [], [], [], [], {};
      new;
      InitialKeeps(Snapshot());
    }

    // ---- lookups ----

    /** `list_find` on the process list. */
    method FindProcess(id: int) returns (p: Process?)
      ensures p == null ==> forall q :: q in processes ==> q.id != id
      ensures p != null ==> p in processes && p.id == id
    {
      var i := 0;
      while i < |processes|
        invariant 0 <= i <= |processes|
        invariant forall j :: 0 <= j < i ==> processes[j].id != id
      {
        if processes[i].id == id {
          return processes[i];
        }
        i := i + 1;
      }
      return null;
    }

    method FindThread(p: Process, tid: int) returns (t: Thread?)
      ensures t == null ==> forall u :: u in p.ults ==> u.tid != tid
      ensures t != null ==> t in p.ults && t.tid == tid
    {
      var i := 0;
      while i < |p.ults|
        invariant 0 <= i <= |p.ults|
        invariant forall j :: 0 <= j < i ==> p.ults[j].tid != tid
      {
        if p.ults[i].tid == tid {
          return p.ults[i];
        }
        i := i + 1;
      }
      return null;
    }

    method FindSemaphore(name: string) returns (m: Semaphore?)
      ensures m == null ==> forall n :: n in semaphores ==> n.name != name
      ensures m != null ==> m in semaphores && m.name == name
    {
      var i := 0;
      while i < |semaphores|
        invariant 0 <= i <= |semaphores|
        invariant forall j :: 0 <= j < i ==> semaphores[j].name != name
      {
        if semaphores[i].name == name {
          return semaphores[i];
        }
        i := i + 1;
      }
      return null;
    }

    // ---- transitions ----

    /** `validar_grado_multiprogramacion`. */
    predicate Admits()
      reads `actualMultiprog
    {
      maxMultiprog >= actualMultiprog + 1
    }

    method SetStatus(t: Thread, k: Status)
      requires t in threads
      modifies t`estado
      ensures t in old(Threads()) && Threads() == old(Threads())[t := old(Threads())[t].(st := k)]
    {
      t.estado := k;
    }

    /** `list_add` to the READY_LIST and `sem_post`. */
    method PushReady(p: Process, t: Thread)
      requires p in processes
      modifies p`readyList, p`semaforoReady
      ensures p in old(Procs())
      ensures var e := old(Procs())[p];
              Procs() == old(Procs())[p := e.(ready := e.ready + [t], permits := e.permits + 1)]
    {
      p.readyList := p.readyList + [t];
      p.semaforoReady := p.semaforoReady + 1;
    }

    lemma SnapshotIs()
      ensures Snapshot() == Sys(Threads(), Procs(), Sems(), newQueue, blockedQueue, exitQueue, actualMultiprog,
              maxMultiprog, alpha)
    {
    }

    /** `nuevo_a_listo`. */
    method NewToReady(t: Thread, p: Process)
      requires t in threads && p in processes
      modifies `actualMultiprog, `newQueue, t`estado, p`readyList, p`semaforoReady
      ensures t in old(Threads()) && p in old(Procs())
      ensures Snapshot() == old(Snapshot()).NewToReady(t, p)
    {
      hide Threads, Procs, Sems, Snapshot, DropThread;
      SnapshotIs();
      PushReady(p, t);
      newQueue := DropThread(newQueue, t);
      SetStatus(t, Ready);
      actualMultiprog := actualMultiprog + 1;
      SnapshotIs();
    }

    /** `nuevo_a_ejecucion`. */
    method NewToExec(t: Thread, p: Process, now: real)
      requires t in threads && p in processes
      modifies `actualMultiprog, `newQueue, t`estado, t`duracionRafaga, t`ejecutado, p`exec
      ensures t in old(Threads()) && p in old(Procs())
      ensures Snapshot() == old(Snapshot()).NewToExec(t, p, now)
    {
      hide Threads, Procs, Sems, Snapshot, DropThread;
      SnapshotIs();
      newQueue := DropThread(newQueue, t);
      StartBurst(t, now);
      SetExec(p, t);
      actualMultiprog := actualMultiprog + 1;
      SnapshotIs();
    }

    method StartBurst(t: Thread, now: real)
      requires t in threads
      modifies t`estado, t`duracionRafaga, t`ejecutado
      ensures t in old(Threads())
              && Threads() == old(Threads())[t := old(Threads())[t].(st := Executing, flag := true, burst := now)]
    {
      t.duracionRafaga := now;
      t.estado := Executing;
      t.ejecutado := true;
    }

    method SetExec(p: Process, t: Thread?)
      requires p in processes
      modifies p`exec
      ensures p in old(Procs()) && Procs() == old(Procs())[p := old(Procs())[p].(exec := t)]
    {
      p.exec := t;
    }

    method EndBurst(t: Thread, k: Status, length: real)
      requires t in threads
      modifies t`estado, t`duracionRafaga, t`bursts
      ensures t in old(Threads()) && Threads() == old(Threads())[t := Finished(old(Threads())[t], k, length)]
    {
      t.duracionRafaga := length;
      t.bursts := t.bursts + [length];
      t.estado := k;
    }

    lemma ThreadAt(t: Thread)
      requires t in threads
      ensures t in Threads() && Threads()[t] == RecOf(t)
    {
    }

    lemma RecIs(t: Thread)
      ensures RecOf(t) == Rec(t.estado, t.duracionRafaga, t.estimacion, t.ejecutado, t.bursts, t.joinedBy, t.joinTo)
    {
    }

    /** The end of a burst in `obtener_proximo_ejecutar`, and `ejecucion_a_listo`. */
    method ExecToReady(t: Thread, p: Process, now: real)
      requires t in threads && p in processes
      modifies t`estado, t`duracionRafaga, t`bursts, p`exec, p`readyList, p`semaforoReady
      ensures t in old(Threads()) && p in old(Procs())
      ensures Snapshot() == old(Snapshot()).ExecToReady(t, p, now)
    {
      hide Threads, Procs, Sems, Snapshot, RecOf;
      SnapshotIs();
      ThreadAt(t);
      RecIs(t);
      var rafaga := t.duracionRafaga;
      EndBurst(t, Ready, if rafaga != 0.0 then now - rafaga else rafaga);
      SetExec(p, null);
      PushReady(p, t);
      SnapshotIs();
    }

    /** `ejecucion_a_bloqueado`. */
    method ExecToBlocked(t: Thread, p: Process, now: real)
      requires t in threads && p in processes
      modifies `blockedQueue, t`estado, t`duracionRafaga, t`bursts, p`exec
      ensures t in old(Threads()) && p in old(Procs())
      ensures Snapshot() == old(Snapshot()).ExecToBlocked(t, p, now)
    {
      hide Threads, Procs, Sems, Snapshot, RecOf;
      SnapshotIs();
      ThreadAt(t);
      RecIs(t);
      var rafaga := t.duracionRafaga;
      EndBurst(t, Blocked, if rafaga > 0.0 then now - rafaga else rafaga);
      SetExec(p, null);
      blockedQueue := blockedQueue + [t];
      SnapshotIs();
    }

    /** `bloqueado_a_listo`. */
    method BlockedToReady(t: Thread, p: Process)
      requires t in threads && p in processes
      modifies `blockedQueue, t`estado, p`readyList, p`semaforoReady
      ensures t in old(Threads()) && p in old(Procs())
      ensures Snapshot() == old(Snapshot()).BlockedToReady(t, p)
    {
      hide Threads, Procs, Sems, Snapshot, DropThread;
      SnapshotIs();
      blockedQueue := DropThread(blockedQueue, t);
      SetStatus(t, Ready);
      PushReady(p, t);
      SnapshotIs();
    }

    method LeaveProcess(p: Process, t: Thread)
      requires p in processes
      modifies p`ults
      ensures p in old(Procs())
              && Procs() == old(Procs())[p := old(Procs())[p].(ults := DropTid(old(Procs())[p].ults, t.tid))]
    {
      p.ults := DropTid(p.ults, t.tid);
    }

    method LeaveReady(p: Process, t: Thread)
      requires p in processes
      modifies p`readyList, p`semaforoReady
      ensures p in old(Procs())
      ensures var e := old(Procs())[p];
              Procs() == old(Procs())[p := e.(ready := DropTid(e.ready, t.tid), permits := e.permits - 1)]
    {
      p.readyList := DropTid(p.readyList, t.tid);
      p.semaforoReady := p.semaforoReady - 1;
    }

    /** `listo_a_exit`, and the lowering of ACTUAL_MULTIPROG before it. */
    method ReadyToExit(t: Thread, p: Process)
      requires t in threads && p in processes
      modifies `actualMultiprog, `exitQueue, t`estado, p`ults, p`readyList, p`semaforoReady
      ensures t in old(Threads()) && p in old(Procs())
      ensures Snapshot() == old(Snapshot()).ReadyToExit(t, p)
    {
      hide Threads, Procs, Sems, Snapshot, DropTid;
      SnapshotIs();
      actualMultiprog := actualMultiprog - 1;
      LeaveReady(p, t);
      LeaveProcess(p, t);
      SetStatus(t, Exited);
      exitQueue := exitQueue + [t];
      SnapshotIs();
    }

    /** `ejecucion_a_exit`, and the lowering of ACTUAL_MULTIPROG after it. */
    method ExecToExit(t: Thread, p: Process)
      requires t in threads && p in processes
      modifies `actualMultiprog, `exitQueue, t`estado, p`ults, p`exec
      ensures t in old(Threads()) && p in old(Procs())
      ensures Snapshot() == old(Snapshot()).ExecToExit(t, p)
    {
      hide Threads, Procs, Sems, Snapshot, DropTid;
      SnapshotIs();
      SetExec(p, null);
      LeaveProcess(p, t);
      SetStatus(t, Exited);
      exitQueue := exitQueue + [t];
      actualMultiprog := actualMultiprog - 1;
      SnapshotIs();
    }

    /** `ULT_create`. */
    method AddThread(p: Process, tid: int) returns (t: Thread)
      requires p in processes
      modifies `newQueue, `threads, p`ults
      ensures fresh(t) && t.tid == tid && t.procesoId == p.id && t.estado == New && threads == old(threads) + {t}
      ensures p in old(Procs()) && Snapshot() == old(Snapshot()).AddThread(t, p)
    {
      hide Sems, Snapshot;
      SnapshotIs();
      t := new Thread(tid, p.id);
      threads := threads + {t};
      p.ults := p.ults + [t];
      newQueue := newQueue + [t];
      ghost var s := old(Snapshot());
      assert Threads() == old(Threads())[t := Rec(New, 0.0, 0.0, false, [], [], [])];
      assert Procs() == old(Procs())[p := old(Procs())[p].(ults := old(Procs())[p].ults + [t])];
      SnapshotIs();
    }

    /** `generar_process`, and `list_add` to the process list. */
    method AddProcess(id: int) returns (p: Process)
      modifies `processes
      ensures fresh(p) && p.id == id && processes == old(processes) + [p]
      ensures Snapshot() == old(Snapshot()).AddProcess(p)
    {
      hide Sems, Threads, Snapshot;
      SnapshotIs();
      p := new Process(id);
      processes := processes + [p];
      assert Procs() == old(Procs())[p := Proc([], [], null, 0)];
      SnapshotIs();
    }

    // ---- estimation and dispatch ----

    /** `estimar` on one ready thread. */
    method EstimateOne(t: Thread)
      requires t in threads
      modifies t`estimacion, t`ejecutado
      ensures t in old(Threads()) && Threads() == old(Threads())[t := Estimate(alpha, old(Threads())[t])]
    {
      hide Blend;
      ThreadAt(t);
      if t.ejecutado {
        t.ejecutado := false;
        t.estimacion := Blend(alpha, t.duracionRafaga, t.estimacion);
        assert Threads() == old(Threads())[t := RecOf(t)];
      } else {
        assert Threads() == old(Threads())[t := RecOf(t)];
      }
    }

    /** `estimar_ULTs_listos`. */
    method EstimateReady(q: seq<Thread>)
      requires Distinct(q) && forall t :: t in q ==> t in threads
      modifies threads`estimacion, threads`ejecutado
      ensures Threads() == old(Snapshot()).Estimated(q).threads
    {
      hide Threads, Procs, Sems, Snapshot, Sys.Estimated, Distinct;
      ghost var s := Snapshot();
      SnapshotIs();
      KeysAre();
      s.EstimatedNone();
      assert q[..0] == [];
      for i := 0 to |q|
        invariant Threads() == s.Estimated(q[..i]).threads
      {
        assert q[i] in q;
        s.EstimatedStep(q, i);
        EstimateOne(q[i]);
      }
      assert q[..|q|] == q;
    }

    lemma KeysAre()
      ensures Threads().Keys == threads && Procs().Keys == (set p | p in processes)
              && Sems().Keys == set m | m in semaphores
    {
    }

    /** `ordenar_por_sjf`: the sort of the collections library, of which only that it sorts is
        used. */
    method SortBySjf(q: seq<Thread>) returns (r: seq<Thread>)
      requires Distinct(q)
      ensures Enumerates(r, Elements(q))
      ensures Sorted(r)
    {
      hide Enumerates, Distinct;
      r := [];
      NoneEnumerates();
      assert Elements(q[..0]) == {};
      for i := 0 to |q|
        invariant Enumerates(r, Elements(q[..i]))
        invariant Sorted(r)
      {
        PrefixSet(q, i);
        r := Insert(r, q[i], Elements(q[..i]));
      }
      assert q[..|q|] == q;
    }

    lemma NoneEnumerates()
      ensures Enumerates<Thread>([], {})
    {
    }

    ghost predicate Sorted(r: seq<Thread>)
      reads r
    {
      forall i, j :: 0 <= i < j < |r| ==> r[i].estimacion <= r[j].estimacion
    }

    method Insert(q: seq<Thread>, t: Thread, ghost ts: set<Thread>) returns (r: seq<Thread>)
      requires Sorted(q) && Enumerates(q, ts) && t !in ts
      ensures Sorted(r) && Enumerates(r, ts + {t})
    {
      hide Enumerates;
      var k := 0;
      while k < |q| && q[k].estimacion <= t.estimacion
        invariant 0 <= k <= |q|
        invariant forall j :: 0 <= j < k ==> q[j].estimacion <= t.estimacion
      {
        k := k + 1;
      }
      EnumeratesInsert(q, ts, k, t);
      InsertSorted(q, t, k);
      r := q[..k] + [t] + q[k..];
    }

    lemma InsertSorted(q: seq<Thread>, t: Thread, k: nat)
      requires Sorted(q) && k <= |q|
      requires (forall j :: 0 <= j < k ==> q[j].estimacion <= t.estimacion)
               && (k < |q| ==> t.estimacion <= q[k].estimacion)
      ensures Sorted(q[..k] + [t] + q[k..])
    {
      var r := q[..k] + [t] + q[k..];
      forall i, j | 0 <= i < j < |r| ensures r[i].estimacion <= r[j].estimacion {
        if i >= k && j > k {
          assert q[k].estimacion <= q[j - 1].estimacion;
        }
      }
    }

    lemma PrefixSet(q: seq<Thread>, i: nat)
      requires Distinct(q) && i < |q|
      ensures q[i] !in Elements(q[..i])
      ensures Elements(q[..i + 1]) == Elements(q[..i]) + {q[i]}
    {
      assert q[..i + 1] == q[..i] + [q[i]];
    }

    method SetReady(p: Process, q: seq<Thread>, n: int)
      requires p in processes
      modifies p`readyList, p`semaforoReady
      ensures p.readyList == q
      ensures p in old(Procs()) && Procs() == old(Procs())[p := old(Procs())[p].(ready := q, permits := n)]
    {
      p.readyList, p.semaforoReady := q, n;
    }

    /** `listo_a_ejecucion`. */
    method ReadyToExec(t: Thread, p: Process, now: real)
      requires t in threads && p in processes
      modifies t`estado, t`duracionRafaga, t`ejecutado, p`readyList, p`semaforoReady, p`exec
      ensures t in old(Threads()) && p in old(Procs())
      ensures var s, r := old(Snapshot()), Snapshot();
              && r == s.(threads := s.threads[t := s.threads[t].(st := Executing, flag := true, burst := now)],
                 procs := r.procs)
              && r.procs == s.procs[p := s.procs[p].(ready := DropTid(s.procs[p].ready, t.tid), exec := t)]
    {
      hide Threads, Procs, Sems, Snapshot, DropTid, ProcOf;
      SnapshotIs();
      ProcAt(p);
      ProcIs(p);
      SetReady(p, DropTid(p.readyList, t.tid), p.semaforoReady);
      StartBurst(t, now);
      SetExec(p, t);
      SnapshotIs();
    }

    lemma ProcAt(p: Process)
      requires p in processes
      ensures p in Procs() && Procs()[p] == ProcOf(p)
    {
    }

    lemma ProcIs(p: Process)
      ensures ProcOf(p) == Proc(p.ults, p.readyList, p.exec, p.semaforoReady)
    {
    }

    /** `sem_wait` and `ordenar_cola_listos`. */
    method Arrange(p: Process) returns (ghost sorted: seq<Thread>)
      requires p in processes && p.readyList != [] && Distinct(p.readyList) && forall t :: t in p.readyList ==>
               t in threads
      modifies threads`estimacion, threads`ejecutado, p`readyList, p`semaforoReady
      ensures p in old(Snapshot()).procs && old(Snapshot()).Ordered(p, sorted)
      ensures Snapshot() == old(Snapshot()).Arranged(p, sorted)
      ensures p.readyList == sorted && sorted != [] && sorted[0] in threads && sorted[0] in old(Snapshot()).threads
    {
      hide *;
      ghost var s := Snapshot();
      SnapshotIs();
      ProcAt(p);
      ProcIs(p);
      KeysAre();
      var r := Sort(p.readyList);
      sorted := r;
      s.OrderedIs(p, r);
      s.EstimatedIs(p);
      SnapshotIs();
      SetReady(p, r, p.semaforoReady - 1);
      SnapshotIs();
      s.ArrangedIs(p, r, Snapshot());
    }

    /** `ordenar_cola_listos`: the estimates are made first. */
    method Sort(q: seq<Thread>) returns (r: seq<Thread>)
      requires q != [] && Distinct(q) && forall t :: t in q ==> t in threads
      modifies threads`estimacion, threads`ejecutado
      ensures Snapshot() == old(Snapshot()).Estimated(q)
      ensures Enumerates(r, Elements(q)) && old(Snapshot()).Estimated(q).ByEstimate(r) && r != [] && r[0] in threads
    {
      hide *;
      ghost var s := Snapshot();
      SnapshotIs();
      EstimateReady(q);
      s.EstimatedSame(q);
      SnapshotIs();
      r := SortBySjf(q);
      SortedSnapshot(r, q);
    }

    /** `obtener_proximo_ejecutar` once `sem_wait` lets it through. */
    method Dispatch(p: Process, now: real) returns (next: Thread, ghost sorted: seq<Thread>)
      requires p in processes && p.readyList != [] && Distinct(p.readyList) && forall t :: t in p.readyList ==>
               t in threads
      modifies threads, p`readyList, p`semaforoReady, p`exec
      ensures p in old(Snapshot()).procs && old(Snapshot()).Ordered(p, sorted)
      ensures sorted != [] && sorted[0] == next && next in old(Snapshot()).threads && p.exec == next
      ensures Snapshot() == old(Snapshot()).Dispatch(p, sorted, now)
    {
      hide *;
      ghost var s := Snapshot();
      sorted := Arrange(p);
      next := p.readyList[0];
      SnapshotIs();
      ReadyToExec(next, p, now);
      ExecIs(p);
      s.DispatchIs(p, sorted, now, Snapshot());
    }

    lemma ExecIs(p: Process)
      requires p in processes
      ensures p in Snapshot().procs && Snapshot().procs[p].exec == p.exec && Snapshot().procs[p].ready == p.readyList
    {
    }

    lemma SortedSnapshot(r: seq<Thread>, q: seq<Thread>)
      requires Sorted(r) && Enumerates(r, Elements(q)) && q != []
      requires forall t :: t in q ==> t in threads
      ensures Snapshot().ByEstimate(r) && r != [] && r[0] in threads
    {
      assert q[0] in Elements(q);
      assert q[0] in r;
      forall i | 0 <= i < |r| ensures r[i] in threads {
        assert r[i] in Elements(q);
      }
    }

    // ---- requests ----

    lemma SnapIs()
      ensures Valid() <==> Snapshot().Inv()
      ensures Snapshot().threads.Keys == threads
      ensures Snapshot().procs.Keys == set p | p in processes
      ensures Snapshot().sems.Keys == set m | m in semaphores
      ensures Snapshot().actual == actualMultiprog && Snapshot().limit == maxMultiprog
              && Snapshot().newQueue == newQueue
    {
    }

    lemma ProcSnap(p: Process)
      requires p in processes
      ensures p in Snapshot().procs && Snapshot().procs[p] == Proc(p.ults, p.readyList, p.exec, p.semaforoReady)
    {
    }

    lemma ThreadSnap(t: Thread)
      requires t in threads
      ensures t in Snapshot().threads
      ensures Snapshot().threads[t] == Rec(t.estado, t.duracionRafaga, t.estimacion, t.ejecutado, t.bursts, t.joinedBy,
              t.joinTo)
    {
    }

    lemma ReadyFacts(p: Process)
      requires Valid() && p in processes
      ensures Distinct(p.readyList) && forall t :: t in p.readyList ==> t in threads && t.estado == Ready
      ensures p.exec != null ==> p.exec in threads && p.exec.estado == Executing && p.exec.procesoId == p.id
    {
      ProcSnap(p);
      Snapshot().ReadyAre(p);
      Snapshot().ProcFacts(p);
      if p.exec != null {
        Snapshot().ExecIs(p.exec, p);
      }
    }

    /** `obtener_proximo_ejecutar`: enabled when a thread executes or is ready, as `sem_wait`
        would not let it go on otherwise.  A ready thread of least estimate is dispatched. */
    method Next(p: Process, now: real) returns (tid: int, ghost e: Event)
      requires Valid() && p in processes && now > 0.0
      requires if p.exec == null then p.readyList != [] else now >= p.exec.duracionRafaga
      modifies threads, p`readyList, p`semaforoReady, p`exec
      ensures Valid() && e.NextAsked? && e.p == p && e.now == now && Step(old(Snapshot()), e, Snapshot())
      ensures p.exec != null && p.exec.tid == tid && e.sorted[0] == p.exec
    {
      hide *;
      ghost var s := Snapshot();
      SnapIs();
      ProcSnap(p);
      ReadyFacts(p);
      if p.exec != null {
        ThreadSnap(p.exec);
        s.ExecToReadyKeeps(p.exec, p, now);
        ExecToReady(p.exec, p, now);
      }
      s.YieldedIs(p, now);
      SnapIs();
      ProcSnap(p);
      ReadyFacts(p);
      ghost var a := Snapshot();
      var next;
      ghost var sorted;
      next, sorted := Dispatch(p, now);
      tid := next.tid;
      e := NextAsked(p, sorted, now);
      NextIs(s, a, p, sorted, now, Snapshot());
      StepKeeps(s, e, Snapshot());
      SnapIs();
    }

    lemma FoundProcess(p: Process, q: Process)
      requires Valid() && p in processes && q in processes && p.id == q.id
      ensures p == q
    {
      Snapshot().OneProcess(p, q);
    }

    lemma FoundThread(p: Process, t: Thread, u: Thread)
      requires Valid() && p in processes && t in p.ults && u in p.ults && t.tid == u.tid
      ensures t == u
    {
      ProcSnap(p);
      Snapshot().Unique(p, t, u);
    }

    lemma ExecFacts(p: Process)
      requires Valid() && p in processes && p.exec != null
      ensures p.exec in p.ults && p.exec in threads && p.exec.procesoId == p.id
    {
      ProcSnap(p);
      Snapshot().ExecListed(p);
    }

    /** `list_add` to the BLOCKED_LIST. */
    method BlockOn(m: Semaphore, t: Thread)
      requires m in semaphores
      modifies m`blockedList, m`asked
      ensures m in old(Sems()) && m.value == old(m.value)
      ensures var e := old(Sems())[m];
              Sems() == old(Sems())[m := e.(blocked := e.blocked + [t], asked := e.asked + [t])]
    {
      m.blockedList := m.blockedList + [t];
      m.asked := m.asked + [t];
    }

    method Lower(m: Semaphore)
      requires m in semaphores
      modifies m`value, m`waits
      ensures m in old(Sems())
      ensures var e := old(Sems())[m]; Sems() == old(Sems())[m := e.(value := e.value - 1, waits := e.waits + 1)]
    {
      m.value := m.value - 1;
      m.waits := m.waits + 1;
    }

    method Raise(m: Semaphore)
      requires m in semaphores
      modifies m`value, m`signals
      ensures m in old(Sems())
      ensures var e := old(Sems())[m]; Sems() == old(Sems())[m := e.(value := e.value + 1, signals := e.signals + 1)]
    {
      m.value := m.value + 1;
      m.signals := m.signals + 1;
    }

    /** `list_remove` of the first of the BLOCKED_LIST. */
    method WakeFirst(m: Semaphore)
      requires m in semaphores && m.blockedList != []
      modifies m`blockedList, m`woken
      ensures m in old(Sems()) && old(Sems())[m].blocked != []
      ensures var e := old(Sems())[m];
              Sems() == old(Sems())[m := e.(blocked := e.blocked[1..], woken := e.woken + [e.blocked[0]])]
    {
      m.woken := m.woken + [m.blockedList[0]];
      m.blockedList := m.blockedList[1..];
    }

    lemma SemAt(m: Semaphore)
      requires m in semaphores
      ensures m in Sems() && Sems()[m] == Sem(m.value, m.blockedList, m.signals, m.waits, m.asked, m.woken)
    {
    }

    /** The lookups of a process by its socket and of its executing thread by its tid. */
    method FindExecuting(tid: int, socket: int, ghost p: Process) returns (program: Process, t: Thread)
      requires Valid() && p in processes && p.id == socket && p.exec != null && p.exec.tid == tid
      ensures program == p && t == p.exec && t in threads && Valid()
    {
      hide *;
      ExecFacts(p);
      var q := FindProcess(socket);
      FoundProcess(p, q);
      program := q;
      var u := FindThread(program, tid);
      FoundThread(p, u, p.exec);
      t := u;
    }

    /** `ejecucion_a_bloqueado_por_semaforo`. */
    method BlockForSemaphore(tid: int, socket: int, m: Semaphore, now: real, ghost p: Process, ghost t: Thread)
      requires Valid() && p in processes && p.id == socket && p.exec == t && t.tid == tid && m in semaphores
               && t in threads
      modifies `blockedQueue, threads`estado, threads`duracionRafaga, threads`bursts, processes`exec, m`blockedList,
        m`asked
      ensures t in old(Snapshot()).threads && p in old(Snapshot()).procs && m in old(Sems())
      ensures Snapshot() == old(Snapshot()).ExecToBlocked(t, p, now).(sems := Sems())
      ensures var e := old(Sems())[m];
              Sems() ==
              old(Sems())[m := e.(blocked := e.blocked + [t], asked := e.asked + [t])]
    {
      hide *;
      SnapIs();
      SnapshotIs();
      var program, thread := FindExecuting(tid, socket, p);
      ExecToBlocked(thread, program, now);
      SnapshotIs();
      BlockOn(m, thread);
      SnapshotIs();
    }

    /** `decrementar_semaforo` on the semaphore found. */
    method WaitAt(m: Semaphore, tid: int, socket: int, now: real, ghost p: Process, ghost t: Thread)
      requires Valid() && p in processes && p.id == socket && p.exec == t && t.tid == tid && m in semaphores
               && now >= t.duracionRafaga
      modifies `blockedQueue, threads`estado, threads`duracionRafaga, threads`bursts, processes`exec, m
      ensures Step(old(Snapshot()), Waited(m, t, p, now), Snapshot())
    {
      hide *;
      ghost var s := Snapshot();
      SnapshotIs();
      ProcSnap(p);
      ExecFacts(p);
      ThreadSnap(t);
      SemAt(m);
      if m.value <= 0 {
        BlockForSemaphore(tid, socket, m, now, p, t);
      }
      SnapshotIs();
      ghost var mid := Snapshot();
      Lower(m);
      SnapshotIs();
      s.WaitOnEq(m, t, p, now, mid, Snapshot());
      WaitedIs(s, m, t, p, now, Snapshot());
    }

    /** `decrementar_semaforo`, called by the executing thread of process `p`. */
    method Wait(socket: int, tid: int, name: string, now: real, ghost p: Process) returns (r: int, ghost e: Event)
      requires Valid() && p in processes && p.id == socket && p.exec != null && p.exec.tid == tid
               && now >= p.exec.duracionRafaga
      modifies `blockedQueue, threads`estado, threads`duracionRafaga, threads`bursts, processes`exec, semaphores
      ensures Valid() && Step(old(Snapshot()), e, Snapshot())
      ensures (r == -1 && e == Refused && forall m :: m in semaphores ==> m.name != name)
           || (r == 0 && e.Waited? && e.m in semaphores && e.m.name == name && e.p == p && e.t == old(p.exec)
              && e.now == now)
    {
      hide *;
      ghost var s, t := Snapshot(), p.exec;
      SnapIs();
      ExecFacts(p);
      var m := FindSemaphore(name);
      if m == null {
        RefusedIs(s);
        return -1, Refused;
      }
      WaitAt(m, tid, socket, now, p, t);
      r, e := 0, Waited(m, t, p, now);
      StepKeeps(s, e, Snapshot());
      SnapIs();
    }

    lemma ProcessOf(t: Thread)
      requires Valid() && t in threads
      ensures exists p :: p in processes && p.id == t.procesoId
    {
      var p := Snapshot().HasProcess(t);
      assert p in processes;
    }

    lemma BlockedHere(m: Semaphore)
      requires Valid() && m in semaphores && m.blockedList != []
      ensures m.blockedList[0] in threads
      ensures exists p :: p in processes && p.id == m.blockedList[0].procesoId
    {
      SnapIs();
      SnapshotIs();
      SemAt(m);
      hide Suse.Snapshot;
      Snapshot().SemBlocked(m, m.blockedList[0]);
      ProcessOf(m.blockedList[0]);
    }

    /** `desbloquear_hilos_semaforo` with a thread to wake. */
    method WakeOne(m: Semaphore) returns (p: Process)
      requires m in semaphores && m.blockedList != [] && m.blockedList[0] in threads
      requires exists p :: p in processes && p.id == m.blockedList[0].procesoId
      modifies `blockedQueue, threads`estado, processes`readyList, processes`semaforoReady, m`blockedList, m`woken
      ensures m in old(Sems()) && old(Sems())[m].blocked != []
      ensures p in processes && p in old(Procs()) && old(m.blockedList[0]) in old(Threads())
              && p.id == old(m.blockedList[0]).procesoId
      ensures var e := old(Sems())[m];
              && Snapshot() == old(Snapshot()).BlockedToReady(old(m.blockedList[0]), p).(sems := Snapshot().sems)
              && Sems() == old(Sems())[m := e.(blocked := e.blocked[1..], woken := e.woken + [e.blocked[0]])]
    {
      hide *;
      SnapshotIs();
      KeysAre();
      var t := m.blockedList[0];
      var program := FindProcess(t.procesoId);
      p := program;
      BlockedToReady(t, p);
      SnapshotIs();
      WakeFirst(m);
      SnapshotIs();
    }

    /** `incrementar_semaforo` and `desbloquear_hilos_semaforo` on a semaphore below MAX. */
    method SignalAt(m: Semaphore) returns (ghost p: Process?)
      requires Valid() && m in semaphores && m.value != m.max
      modifies `blockedQueue, threads`estado, processes`readyList, processes`semaforoReady, m
      ensures m in old(Snapshot()).sems && old(Snapshot()).sems[m].value == old(m.value)
      ensures old(Snapshot()).sems[m].blocked != [] ==>
                && p != null && p in old(Snapshot()).procs
                && old(Snapshot()).sems[m].blocked[0] in old(Snapshot()).threads
                && p.id == old(Snapshot()).sems[m].blocked[0].procesoId
      ensures Snapshot() == old(Snapshot()).SignalOn(m, p)
    {
      hide *;
      ghost var s := Snapshot();
      SnapshotIs();
      SemAt(m);
      if m.blockedList != [] {
        BlockedHere(m);
      }
      Raise(m);
      SnapshotIs();
      p := null;
      if m.blockedList != [] {
        ghost var ms, t := Sems(), m.blockedList[0];
        p := WakeOne(m);
        s.BlockedToReadySems(t, p, ms);
      }
      SnapshotIs();
      s.SignalOnEq(m, p, Snapshot());
    }

    /** `handle_signal_sem`. */
    method Signal(name: string) returns (r: int, ghost e: Event)
      requires Valid()
      modifies `blockedQueue, threads`estado, processes`readyList, processes`semaforoReady, semaphores
      ensures Valid() && Step(old(Snapshot()), e, Snapshot())
      ensures (r == -1 && e == Refused && forall m :: m in semaphores && m.name == name ==> exists n ::
              n in semaphores && n.name == name && n.value == n.max)
           || (r == 0 && e.Signalled? && e.m in semaphores && e.m.name == name && e.m in old(Snapshot()).sems
              && old(Snapshot()).sems[e.m].value != e.m.max)
    {
      hide *;
      ghost var s := Snapshot();
      SnapIs();
      var m := FindSemaphore(name);
      if m == null || m.value == m.max {
        RefusedIs(s);
        return -1, Refused;
      }
      SemAt(m);
      SnapshotIs();
      ghost var p := SignalAt(m);
      r, e := 0, Signalled(m, p);
      SignalledIs(s, m, p, Snapshot());
      StepKeeps(s, e, Snapshot());
      SnapIs();
    }

    // ---- join ----

    method SetJoinTo(t: Thread, q: seq<Thread>)
      requires t in threads
      modifies t`joinTo
      ensures t in old(Threads()) && Threads() == old(Threads())[t := old(Threads())[t].(joinTo := q)] && t.joinTo == q
    {
      t.joinTo := q;
    }

    method AddJoiner(u: Thread, t: Thread)
      requires u in threads
      modifies u`joinedBy
      ensures u in old(Threads())
              && Threads() == old(Threads())[u := old(Threads())[u].(joinedBy := old(Threads())[u].joinedBy + [t])]
    {
      u.joinedBy := u.joinedBy + [t];
    }

    /** The two `list_add` calls of `join`. */
    method Link(t: Thread, u: Thread)
      requires t in threads && u in threads
      modifies t`joinTo, u`joinedBy
      ensures t in old(Snapshot()).threads && u in old(Snapshot()).threads
      ensures Snapshot() == old(Snapshot()).Linked(t, u)
    {
      hide Threads, Procs, Sems, Snapshot;
      SnapshotIs();
      ThreadSnap(t);
      KeysAre();
      SetJoinTo(t, t.joinTo + [u]);
      AddJoiner(u, t);
      SnapshotIs();
    }

    lemma ListedThread(p: Process, u: Thread)
      requires Valid() && p in processes && u in p.ults
      ensures u in threads && u.procesoId == p.id && u.estado != Exited
    {
      ProcSnap(p);
      Snapshot().ListedLive(u, p);
    }

    /** `join`: nothing happens when no thread executes or none has that tid. */
    method Join(socket: int, tid: int, now: real, ghost p: Process) returns (r: int, ghost e: Event)
      requires Valid() && p in processes && p.id == socket && (p.exec != null ==> now >= p.exec.duracionRafaga)
      modifies `blockedQueue, threads, processes`exec
      ensures Valid() && r == 0 && Step(old(Snapshot()), e, Snapshot())
      ensures if old(p.exec) == null || forall u :: u in p.ults ==> u.tid != tid then e == Refused
              else e.Joined? && e.t == old(p.exec) && e.p == p && e.u.tid == tid && e.now == now
    {
      hide *;
      ghost var s := Snapshot();
      SnapIs();
      ProcSnap(p);
      var process := FindProcess(socket);
      FoundProcess(p, process);
      var t := process.exec;
      var u := FindThread(process, tid);
      r := 0;
      if u == null || t == null {
        RefusedIs(s);
        return 0, Refused;
      }
      ExecFacts(p);
      ListedThread(p, u);
      ThreadSnap(t);
      s.JoinOnIs(t, u, p, now);
      Link(t, u);
      ExecToBlocked(t, process, now);
      e := Joined(t, u, p, now);
      JoinedIs(s, t, u, p, now, Snapshot());
      StepKeeps(s, e, Snapshot());
      SnapIs();
    }

    // ---- creation ----

    /** `handle_suse_create`: the first thread of a process starts executing and later ones are
        made ready, each only below the limit of the multiprogramming degree. */
    method Create(socket: int, tid: int, now: real) returns (ghost e: Event)
      requires Valid() && now > 0.0
      requires forall p :: p in processes && p.id == socket ==> forall u :: u in p.ults ==> u.tid != tid
      modifies this, processes
      ensures Valid() && Step(old(Snapshot()), e, Snapshot())
      ensures if exists p :: p in old(processes) && p.id == socket
              then e.ThreadCreated? && e.p in old(processes) && e.p.id == socket && e.t.tid == tid && fresh(e.t)
              else e.MainCreated? && e.p.id == socket && e.t.tid == tid && fresh(e.t) && fresh(e.p) && e.now == now
    {
      hide *;
      ghost var s := Snapshot();
      SnapIs();
      var process := FindProcess(socket);
      if process != null {
        e := CreateThread(process, tid);
      } else {
        e := CreateProcess(socket, tid, now);
      }
      StepKeeps(s, e, Snapshot());
      SnapIs();
    }

    /** `handle_ULT_create`. */
    method CreateThread(p: Process, tid: int) returns (ghost e: Event)
      requires p in processes && forall u :: u in p.ults ==> u.tid != tid
      modifies this, p
      ensures e.ThreadCreated? && e.p == p && e.t.tid == tid && fresh(e.t)
      ensures Step(old(Snapshot()), e, Snapshot())
    {
      hide *;
      ghost var s := Snapshot();
      SnapIs();
      ProcSnap(p);
      var t := AddThread(p, tid);
      ghost var a := Snapshot();
      SnapIs();
      a.AdmitsIs();
      AdmitsHere();
      if Admits() {
        NewToReady(t, p);
      }
      e := ThreadCreated(t, p);
      CreatedIs(s, t, p, Snapshot());
    }

    lemma AdmitsHere()
      ensures Admits() <==> maxMultiprog >= actualMultiprog + 1
    {
    }

    /** `handle_main_thread_create`. */
    method CreateProcess(socket: int, tid: int, now: real) returns (ghost e: Event)
      requires now > 0.0 && forall p :: p in processes ==> p.id != socket
      modifies this
      ensures e.MainCreated? && e.p.id == socket && e.t.tid == tid && fresh(e.t) && fresh(e.p) && e.now == now
      ensures Step(old(Snapshot()), e, Snapshot())
    {
      hide *;
      ghost var s := Snapshot();
      SnapIs();
      var p := AddProcess(socket);
      SnapIs();
      var t := AddThread(p, tid);
      ghost var a := Snapshot();
      SnapIs();
      a.AdmitsIs();
      AdmitsHere();
      if Admits() {
        NewToExec(t, p, now);
      }
      e := MainCreated(t, p, now);
      MainIs(s, t, p, now, Snapshot());
    }

    // ---- close ----

    /** `desjoinear_hilo`. */
    method Unjoin(u: Thread, t: Thread, ghost p: Process)
      requires t in threads && p in processes && p.id == t.procesoId
      requires forall q :: q in processes && q.id == p.id ==> q == p
      modifies `newQueue, `blockedQueue, t`joinTo, t`estado, p`readyList, p`semaforoReady
      ensures t in old(Snapshot()).threads && p in old(Snapshot()).procs
      ensures Snapshot() == old(Snapshot()).Unjoin(u, t, p)
    {
      hide *;
      ghost var s := Snapshot();
      SnapIs();
      SnapshotIs();
      ThreadSnap(t);
      SetJoinTo(t, DropTid(t.joinTo, u.tid));
      SnapshotIs();
      ghost var a := Snapshot();
      a.MovedJoinTo(s, u, t);
      s.UnjoinEq(u, t, p, a);
      ThreadSnap(t);
      s.AdmitsIs();
      AdmitsHere();
      if t.joinTo == [] {
        if Admits() {
          var process := FindProcess(t.procesoId);
          BlockedToReady(t, process);
        } else {
          BackToNew(t);
        }
      }
    }

    method BackToNew(t: Thread)
      requires t in threads
      modifies `newQueue, t`estado
      ensures t in old(Threads()) && Snapshot() == old(Snapshot()).BackToNew(t)
    {
      hide Threads, Procs, Sems, Snapshot;
      SnapshotIs();
      SetStatus(t, New);
      newQueue := newQueue + [t];
      SnapshotIs();
    }

    /** `desjoinear`. */
    method UnjoinAll(u: Thread, ghost p: Process)
      requires u in threads && p in processes && forall q :: q in processes && q.id == p.id ==> q == p
      requires forall t :: t in u.joinedBy ==> t in threads && t.procesoId == p.id
      modifies `newQueue, `blockedQueue, threads`joinTo, threads`estado, p`readyList, p`semaforoReady
      ensures p in old(Snapshot()).procs && forall i :: 0 <= i < |u.joinedBy| ==>
              u.joinedBy[i] in old(Snapshot()).threads
      ensures Snapshot() == old(Snapshot()).UnjoinAll(u, u.joinedBy, p)
    {
      hide *;
      ghost var s := Snapshot();
      SnapIs();
      ghost var js := u.joinedBy;
      var size := |u.joinedBy|;
      assert js[0..] == js;
      for i := 0 to size
        invariant Snapshot().threads.Keys == threads && p in Snapshot().procs
        invariant s.UnjoinAll(u, js, p) == Snapshot().UnjoinAll(u, js[i..], p)
      {
        ghost var a := Snapshot();
        var t := u.joinedBy[i];
        assert t in u.joinedBy;
        assert js[i..][1..] == js[i + 1..];
        a.UnjoinAllHead(u, js[i..], p);
        Unjoin(u, t, p);
        SnapIs();
      }
      Snapshot().UnjoinAllHead(u, js[size..], p);
    }

    /** `obtener_ULT_ready_FIFO`: the longest waiting new thread is made ready. */
    method AdmitNext() returns (ghost q: Process?)
      requires newQueue != [] ==> newQueue[0] in threads && exists p :: p in processes && p.id == newQueue[0].procesoId
      modifies `actualMultiprog, `newQueue, threads`estado, processes`readyList, processes`semaforoReady
      ensures old(newQueue) != [] ==>
                q != null && q in old(Snapshot()).procs && q.id == old(newQueue)[0].procesoId
                  && old(newQueue)[0] in old(Snapshot()).threads
      ensures old(Snapshot()).newQueue == old(newQueue)
      ensures Snapshot() == old(Snapshot()).AdmitNext(q)
    {
      hide *;
      ghost var s := Snapshot();
      SnapIs();
      q := null;
      if newQueue != [] {
        var t := newQueue[0];
        var process := FindProcess(t.procesoId);
        q := process;
        NewToReady(t, process);
      }
      s.AdmitNextIs(q);
    }

    /** `if(validar_grado_multiprogramacion()) obtener_ULT_ready_FIFO()`. */
    method Admit() returns (ghost q: Process?)
      requires Valid()
      modifies `actualMultiprog, `newQueue, threads`estado, processes`readyList, processes`semaforoReady
      ensures var a := old(Snapshot());
              && (a.newQueue != [] ==>
                 q != null && q in a.procs && q.id == a.newQueue[0].procesoId
                 && a.newQueue[0] in a.threads)
              && Snapshot() == a.Admitted(q)
    {
      hide *;
      ghost var s := Snapshot();
      SnapIs();
      s.AdmitsIs();
      AdmitsHere();
      q := null;
      if newQueue != [] {
        HeadHere();
        var process := FindProcess(newQueue[0].procesoId);
        q := process;
      }
      s.AdmittedIs(q);
      if Admits() {
        q := AdmitNext();
        s.AdmittedIs(q);
      }
    }

    lemma HeadHere()
      requires Valid() && newQueue != []
      ensures newQueue[0] in threads && exists p :: p in processes && p.id == newQueue[0].procesoId
    {
      Snapshot().HeadIsNew();
      ProcessOf(newQueue[0]);
    }

    /** `close_tid` up to the admission of a new thread. */
    method Leave(process: Process, t: Thread)
      requires Valid() && process in processes && t in process.ults && t.estado in {Ready, Executing}
      modifies `actualMultiprog, `newQueue, `blockedQueue, `exitQueue, threads`joinTo, threads`estado, process
      ensures t in old(Snapshot()).threads && process in old(Snapshot()).procs
      ensures forall i :: 0 <= i < |old(Snapshot()).threads[t].joinedBy| ==>
              old(Snapshot()).threads[t].joinedBy[i] in old(Snapshot()).threads
      ensures Snapshot() == old(Snapshot()).Leaving(t, process)
    {
      hide *;
      ghost var s := Snapshot();
      SnapIs();
      ListedThread(process, t);
      ThreadSnap(t);
      ProcSnap(process);
      JoinersHere(process, t);
      s.LeavingIs(t, process);
      s.UnjoinAllSpares(t, process);
      s.UnjoinAllHead(t, t.joinedBy, process);
      if t.joinedBy != [] {
        UnjoinAll(t, process);
      }
      SnapIs();
      ThreadSnap(t);
      ghost var a := Snapshot();
      a.EndedEq(t, process);
      match t.estado {
        case Ready => ReadyToExit(t, process);
        case Executing => ExecToExit(t, process);
        case _ =>
      }
    }

    method CloseThread(p: Process, t: Thread) returns (ghost e: Event)
      requires Valid() && p in processes && t in p.ults && t.estado in {Ready, Executing}
      modifies `actualMultiprog, `newQueue, `blockedQueue, `exitQueue, threads`joinTo, threads`estado, processes
      ensures Valid() && e.Closed? && e.t == t && e.p == p && Step(old(Snapshot()), e, Snapshot())
      ensures t.estado == Exited
    {
      hide *;
      ghost var s := Snapshot();
      SnapIs();
      ListedThread(p, t);
      ThreadSnap(t);
      ProcSnap(p);
      s.LeavingKeeps(t, p);
      s.Leaving(t, p).ClosedFacts(s, t);
      Leave(p, t);
      SnapIs();
      ghost var a := Snapshot();
      ghost var q := Admit();
      e := Closed(t, p, q);
      ClosedIs(s, t, p, q, Snapshot());
      StepKeeps(s, e, Snapshot());
      SnapIs();
      ThreadSnap(t);
      a.AdmittedExited(q, t);
    }

    /** `close_tid` of a READY or executing thread other than the first. */
    method Close(tid: int, socket: int, ghost p: Process, ghost t: Thread) returns (r: int, ghost e: Event)
      requires Valid() && p in processes && p.id == socket && t in p.ults && t.tid == tid && tid != 0
               && t.estado in {Ready, Executing}
      modifies `actualMultiprog, `newQueue, `blockedQueue, `exitQueue, threads`joinTo, threads`estado, processes
      ensures Valid() && r == 1 && e.Closed? && e.t == t && e.p == p && Step(old(Snapshot()), e, Snapshot())
      ensures t.estado == Exited
    {
      hide *;
      var process := FindProcess(socket);
      FoundProcess(p, process);
      var thread := FindThread(process, tid);
      FoundThread(p, t, thread);
      e := CloseThread(process, thread);
      r := 1;
    }

    /** The joiners of a thread are threads of the same process. */
    lemma JoinersHere(p: Process, u: Thread)
      requires Valid() && p in processes && u in p.ults
      ensures forall t :: t in u.joinedBy ==> t in threads && t.procesoId == p.id
      ensures forall q :: q in processes && q.id == p.id ==> q == p
      ensures u.estado in {Ready, Executing} ==> u !in u.joinedBy
    {
      ListedThread(p, u);
      ThreadSnap(u);
      forall t | t in u.joinedBy ensures t in threads && t.procesoId == p.id
        && (u.estado in {Ready, Executing} ==> t != u) {
        Snapshot().JoinerOf(u, t);
      }
      forall q | q in processes && q.id == p.id ensures q == p {
        FoundProcess(q, p);
      }
    }

  }

  lemma ClosedIs(s: Sys, t: Thread, p: Process, q: Process?, r: Sys)
    requires t in s.threads && s.threads[t].st in {Ready, Executing} && p in s.procs && p.id == t.procesoId
    requires forall i :: 0 <= i < |s.threads[t].joinedBy| ==> s.threads[t].joinedBy[i] in s.threads
    requires var a := s.Leaving(t, p);
             && (a.newQueue != [] ==>
                q != null && q in a.procs && q.id == a.newQueue[0].procesoId
                && a.newQueue[0] in a.threads)
             && r == a.Admitted(q)
    ensures Step(s, Closed(t, p, q), r)
  {
  }

  lemma JoinedIs(s: Sys, t: Thread, u: Thread, p: Process, now: real, r: Sys)
    requires p in s.procs && s.procs[p].exec == t && t in s.threads && now >= s.threads[t].burst && u in s.procs[p].ults
             && u in s.threads
    requires r == s.JoinOn(t, u, p, now)
    ensures Step(s, Joined(t, u, p, now), r)
  {
  }

  lemma CreatedIs(s: Sys, t: Thread, p: Process, r: Sys)
    requires p in s.procs && t !in s.threads && t.procesoId == p.id && forall u :: u in s.procs[p].ults ==>
             u.tid != t.tid
    requires var a := s.AddThread(t, p);
             t in a.threads && p in a.procs && r == if a.Admits() then a.NewToReady(t, p) else a
    ensures Step(s, ThreadCreated(t, p), r)
  {
  }

  lemma MainIs(s: Sys, t: Thread, p: Process, now: real, r: Sys)
    requires p !in s.procs && (forall q :: q in s.procs ==> q.id != p.id) && t !in s.threads && t.procesoId == p.id
             && now > 0.0
    requires p in s.AddProcess(p).procs
    requires var a := s.AddProcess(p).AddThread(t, p);
             t in a.threads && p in a.procs && r == if a.Admits() then a.NewToExec(t, p, now) else a
    ensures Step(s, MainCreated(t, p, now), r)
  {
  }

  lemma SignalledIs(s: Sys, m: Semaphore, p: Process?, r: Sys)
    requires m in s.sems
    requires s.sems[m].blocked != [] ==>
               p != null && p in s.procs && s.sems[m].blocked[0] in s.threads && p.id == s.sems[m].blocked[0].procesoId
    requires r == s.SignalOn(m, p)
    ensures Step(s, Signalled(m, p), r)
  {
  }

  lemma RefusedIs(s: Sys)
    ensures Step(s, Refused, s)
  {
  }

  lemma WaitedIs(s: Sys, m: Semaphore, t: Thread, p: Process, now: real, r: Sys)
    requires m in s.sems && t in s.threads && p in s.procs && s.procs[p].exec == t && now >= s.threads[t].burst
    requires r == s.WaitOn(m, t, p, now)
    ensures Step(s, Waited(m, t, p, now), r)
  {
  }

  lemma NextIs(s: Sys, a: Sys, p: Process, sorted: seq<Thread>, now: real, r: Sys)
    requires p in s.procs && now > 0.0
    requires s.procs[p].exec != null ==> s.procs[p].exec in s.threads && now >= s.threads[s.procs[p].exec].burst
    requires a == s.Yielded(p, now) && p in a.procs && a.Ordered(p, sorted) && sorted != [] && sorted[0] in a.threads
    requires r == a.Dispatch(p, sorted, now)
    ensures Step(s, NextAsked(p, sorted, now), r)
  {
  }
}
