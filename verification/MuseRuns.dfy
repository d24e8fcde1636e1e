/** Requests of several programs, one after the other, on paged memory. */
module MuseRuns {
  import opened Bytes
  import opened Sequences
  import opened Blocks
  import opened HeapSpec
  import opened SegmentHeap
  import opened HeapRequests
  import opened Muse
  import opened HeapRuns

  datatype Call =
    | Alloc(pid: nat, size: int)
    | Free(pid: nat, address: nat)
    | Copy(pid: nat, dst: nat, src: seq<byte>)
    | Get(pid: nat, at: nat, n: nat)

  /** The block lists of the programs, and the free frames and swap slots. */
  datatype State = State(blocks: map<nat, seq<Block>>, room: nat)

  function BlocksOf(s: State, pid: nat): seq<Block> {
    if pid in s.blocks then s.blocks[pid] else []
  }

  function LimitOf(b: seq<Block>): nat {
    if b == [] then 0 else b[|b| - 1].End()
  }

  /** Index of the block, in use or not, whose payload starts at `address`. */
  function BlockAt(b: seq<Block>, address: nat): (k: nat)
    ensures k <= |b|
    ensures k < |b| ==> b[k].Payload() == address
  {
    if b == [] then 0 else if b[0].Payload() == address then 0 else 1 + BlockAt(b[1..], address)
  }

  /** What a request may ask of block list `b`. */
  predicate Allowed(b: seq<Block>, room: nat, rq: Call, ps: nat)
    requires ps > 0
  {
    match rq
    case Alloc(_, size) => -INT <= size < INT && Affordable(b, size, room, ps)
    case Free(_, address) => IndexOf(b, address) < |b|
    case Copy(_, dst, src) => b == [] || dst > LimitOf(b) || (BlockAt(b, dst) < |b| && dst + |src| <= LimitOf(b))
    case Get(_, _, _) => true
  }

  function After(s: State, rq: Call, ps: nat): State
    requires ps > 0
  {
    var b := BlocksOf(s, rq.pid);
    match rq
    case Alloc(pid, size) =>
      var o := Malloc(b, size, s.room, ps);
      State(s.blocks[pid := o.blocks], if o.pages <= s.room then s.room - o.pages else 0)
    case Free(pid, address) =>
      if IndexOf(b, address) < |b| then s.(blocks := s.blocks[pid := Release(b, IndexOf(b, address), true)]) else s
    case _ => s
  }

  predicate AllAllowed(s: State, rqs: seq<Call>, ps: nat)
    requires ps > 0
    decreases |rqs|
  {
    rqs == [] || (Allowed(BlocksOf(s, rqs[0].pid), s.room, rqs[0], ps)
      && AllAllowed(After(s, rqs[0], ps), rqs[1..], ps))
  }

  ghost predicate Is(m: Muse, s: State)
    reads m, m.pager`pages
  {
    && m.pager.HasRoom() && m.Room() == s.room
    && forall p :: m.HeapOf(p).blocks == BlocksOf(s, p)
  }

  /** What the request does to the heap `h` of program `p`. */
  function EventFor(rq: Call, p: nat, h: Heap, room: nat): Event {
    if rq.pid != p then Untouched else
    match rq
    case Alloc(_, size) => Malloced(size, room)
    case Free(_, address) => Freed(address)
    case Copy(_, dst, src) =>
      var k := BlockAt(h.blocks, dst);
      if k < |h.blocks| && dst <= |h.mem| && !h.blocks[k].free && h.blocks[k].size >= |src| then Copied(k, src)
        else Untouched
    case Get(_, _, _) => Untouched
  }

  /** What the request returns, to a program with the heap `h`. */
  ghost predicate Returns(rq: Call, h: Heap, room: nat, ps: nat, r: int, data: seq<byte>)
    requires ps > 0
  {
    match rq
    case Alloc(_, size) => r == Malloc(h.blocks, size, room, ps).result
    case Free(_, _) => r == 0
    case Copy(_, dst, src) =>
      var k := BlockAt(h.blocks, dst);
      if h.blocks == [] || dst > |h.mem| then r == -3
      else if k == |h.blocks| || h.blocks[k].free || h.blocks[k].size < |src| then r == -1
      else r == dst
    case Get(_, at, n) =>
      if h.blocks == [] || at > |h.mem| then r == -3
      else if |h.mem| < at + n then r == -4
      else r == 0 && data == h.mem[at..at + n]
  }

  lemma ReturnsWhen(rq: Call, h: Heap, room: nat, ps: nat, r: int, data: seq<byte>)
    requires ps > 0
    requires match rq
             case Alloc(_, size) => r == Malloc(h.blocks, size, room, ps).result
             case Free(_, _) => r == 0
             case Copy(_, dst, src) =>
               if h.blocks == [] || dst > |h.mem| then r == -3
               else
                 && BlockAt(h.blocks, dst) < |h.blocks|
                 && var x := h.blocks[BlockAt(h.blocks, dst)];
                    if x.free || x.size < |src| then r == -1 else r == dst
             case Get(_, at, n) =>
               if h.blocks == [] || at > |h.mem| then r == -3
               else if |h.mem| < at + n then r == -4
               else r == 0 && data == h.mem[at..at + n]
    ensures Returns(rq, h, room, ps, r, data)
  {
  }

  lemma LimitIs(h: Heap)
    requires GoodHeap(h)
    ensures LimitOf(h.blocks) == |h.mem|
  {
    if h.blocks != [] {
      TilesOrder(h.blocks, 0, |h.mem|, |h.blocks| - 1);
    }
  }

  lemma HeapAt(m: Muse, s: State)
    requires Is(m, s)
    ensures m.pager.HasRoom() && m.Room() == s.room
    ensures forall p :: m.HeapOf(p).blocks == BlocksOf(s, p)
  {
  }

  function HeapIn(hs: map<nat, Heap>, pid: nat): Heap {
    if pid in hs then hs[pid] else Heap([], [])
  }

  ghost predicate AllGood(hs: map<nat, Heap>) {
    forall p :: GoodHeap(HeapIn(hs, p))
  }

  lemma HeapsGood(m: Muse)
    requires m.Valid()
    ensures AllGood(m.heaps) && m.pager.HasRoom()
    ensures forall p :: m.HeapOf(p) == HeapIn(m.heaps, p)
  {
    GoodHeapOf(m, 0);
    forall p ensures GoodHeap(HeapIn(m.heaps, p)) {
      GoodHeapOf(m, p);
    }
  }

  /** A request is a step of every program's heap when it is one of its own program's and
      leaves the others alone. */
  ghost predicate Steps(hs: map<nat, Heap>, rq: Call, room: nat, now: map<nat, Heap>, ps: nat)
    requires ps > 0
  {
    forall p :: Step(HeapIn(hs, p), EventFor(rq, p, HeapIn(hs, p), room), HeapIn(now, p), ps)
  }

  lemma StepsWhen(hs: map<nat, Heap>, rq: Call, room: nat, now: map<nat, Heap>, ps: nat, h: Heap)
    requires ps > 0 && AllGood(hs) && AllGood(now) && (now == hs[rq.pid := h] || (now == hs && h == HeapIn(hs, rq.pid)))
    requires Step(HeapIn(hs, rq.pid), EventFor(rq, rq.pid, HeapIn(hs, rq.pid), room), h, ps)
    ensures Steps(hs, rq, room, now, ps)
  {
    forall p ensures Step(HeapIn(hs, p), EventFor(rq, p, HeapIn(hs, p), room), HeapIn(now, p), ps) {
      assert GoodHeap(HeapIn(hs, p)) && GoodHeap(HeapIn(now, p));
    }
  }

  lemma AllocSteps(hs: map<nat, Heap>, pid: nat, size: int, room: nat, now: map<nat, Heap>, ps: nat)
    requires ps > 0 && AllGood(hs) && AllGood(now)
    requires var o := Malloc(HeapIn(hs, pid).blocks, size, room, ps);
             if size <= 0 || !CapacityOk(size, room, ps) then now == hs
             else pid in now && now == hs[pid := Heap(o.blocks, now[pid].mem)]
    requires PayloadsKept(HeapIn(hs, pid).mem, HeapIn(now, pid).mem, HeapIn(hs, pid).blocks)
    ensures Steps(hs, Call.Alloc(pid, size), room, now, ps)
    ensures forall p :: HeapIn(now, p).blocks == if p == pid then Malloc(HeapIn(hs, pid).blocks, size, room, ps).blocks
            else HeapIn(hs, p).blocks
  {
    MallocIs(HeapIn(hs, pid).blocks, size, room, ps);
    assert GoodHeap(HeapIn(hs, pid)) && GoodHeap(HeapIn(now, pid));
    hide Malloc, GoodHeap, AllGood, PayloadsKept;
    StepsWhen(hs, Call.Alloc(pid, size), room, now, ps, HeapIn(now, pid));
  }

  lemma FreeSteps(hs: map<nat, Heap>, pid: nat, address: nat, room: nat, now: map<nat, Heap>, ps: nat)
    requires ps > 0 && AllGood(hs) && AllGood(now) && pid in hs && pid in now
    requires var h := hs[pid]; var k := IndexOf(h.blocks, address);
             && k < |h.blocks| && now == hs[pid := Heap(Release(h.blocks, k, true), now[pid].mem)]
             && PayloadsKept(h.mem, now[pid].mem, Marked(h.blocks, k))
    ensures Steps(hs, Call.Free(pid, address), room, now, ps)
    ensures forall p :: HeapIn(now, p).blocks == if p == pid then
            Release(hs[pid].blocks, IndexOf(hs[pid].blocks, address), true) else HeapIn(hs, p).blocks
  {
    assert GoodHeap(HeapIn(hs, pid)) && GoodHeap(HeapIn(now, pid));
    hide Release, GoodHeap, AllGood, PayloadsKept;
    StepsWhen(hs, Call.Free(pid, address), room, now, ps, now[pid]);
  }

  lemma CopySteps(hs: map<nat, Heap>, pid: nat, dst: nat, src: seq<byte>, room: nat, now: map<nat, Heap>, ps: nat)
    requires ps > 0 && AllGood(hs) && AllGood(now)
    requires var h := HeapIn(hs, pid); var k := BlockAt(h.blocks, dst);
             if h.blocks == [] || dst > |h.mem| then now == hs[pid := h]
             else && k < |h.blocks| && dst + |src| <= |h.mem|
                  && now == hs[pid := if h.blocks[k].free || h.blocks[k].size < |src| then h
                     else Heap(h.blocks, Splice(h.mem, dst, src))]
    ensures Steps(hs, Copy(pid, dst, src), room, now, ps)
    ensures forall p :: HeapIn(now, p).blocks == HeapIn(hs, p).blocks
  {
    assert GoodHeap(HeapIn(hs, pid)) && GoodHeap(HeapIn(now, pid));
    hide GoodHeap, AllGood;
    StepsWhen(hs, Copy(pid, dst, src), room, now, ps, HeapIn(now, pid));
  }

  lemma GetSteps(hs: map<nat, Heap>, pid: nat, at: nat, n: nat, room: nat, now: map<nat, Heap>, ps: nat)
    requires ps > 0 && AllGood(hs) && AllGood(now) && now == hs[pid := HeapIn(hs, pid)]
    ensures Steps(hs, Get(pid, at, n), room, now, ps)
    ensures forall p :: HeapIn(now, p) == HeapIn(hs, p)
  {
    assert GoodHeap(HeapIn(hs, pid)) && GoodHeap(HeapIn(now, pid));
    hide GoodHeap, AllGood;
    StepsWhen(hs, Get(pid, at, n), room, now, ps, HeapIn(now, pid));
  }

  lemma IsAfter(m: Muse, s: State, rq: Call, hs: map<nat, Heap>, ps: nat)
    requires ps > 0 && m.pager.HasRoom() && forall p :: m.HeapOf(p) == HeapIn(m.heaps, p)
    requires forall p :: HeapIn(hs, p).blocks == BlocksOf(s, p)
    requires forall p :: HeapIn(m.heaps, p).blocks == if p == rq.pid then BlocksOf(After(s, rq, ps), p)
             else HeapIn(hs, p).blocks
    requires m.Room() == After(s, rq, ps).room
    ensures Is(m, After(s, rq, ps))
  {
    AfterIs(s, rq, ps);
  }

  lemma AfterIs(s: State, rq: Call, ps: nat)
    requires ps > 0
    ensures var b, t := BlocksOf(s, rq.pid), After(s, rq, ps);
            && (forall p :: p != rq.pid ==> BlocksOf(t, p) == BlocksOf(s, p))
            && match rq
               case Alloc(_, size) =>
                 var o := Malloc(b, size, s.room, ps);
                 BlocksOf(t, rq.pid) == o.blocks && (o.pages <= s.room ==> t.room == s.room - o.pages)
               case Free(_, address) =>
                 && t.room == s.room
                 && (IndexOf(b, address) < |b| ==> BlocksOf(t, rq.pid) == Release(b, IndexOf(b, address), true))
               case _ => t == s
  {
  }

  lemma HeapInIs(hs: map<nat, Heap>, pid: nat)
    ensures HeapIn(hs, pid).blocks != [] ==> pid in hs && HeapIn(hs, pid) == hs[pid]
  {
  }

  lemma RequestIs(s: State, rq: Call, h: Heap, ps: nat)
    requires ps > 0 && Allowed(BlocksOf(s, rq.pid), s.room, rq, ps) && h.blocks == BlocksOf(s, rq.pid)
             && LimitOf(h.blocks) == |h.mem|
    ensures match rq
            case Alloc(_, size) => -INT <= size < INT && Affordable(h.blocks, size, s.room, ps)
            case Free(_, address) => IndexOf(h.blocks, address) < |h.blocks| && h.blocks != []
            case Copy(_, dst, src) =>
              var k := BlockAt(h.blocks, dst);
              h.blocks != [] && dst <= |h.mem| ==>
                k < |h.blocks| && h.blocks[k].Payload() == dst
                && dst + |src| <= |h.mem|
            case Get(_, _, _) => true
  {
  }

  /** One request.  It is a step of every program's heap: the one it says for its own program,
      and none for the others; what it returns follows from its program's heap. */
  method Serve(m: Muse, rq: Call, ghost s: State) returns (r: int, data: seq<byte>)
    requires m.Valid() && m.pager.pageSize > 0 && Is(m, s) && Allowed(BlocksOf(s, rq.pid), s.room, rq, m.pager.pageSize)
    modifies m, m.pager, m.pager.frames, m.pager.bitmap, m.pager.swapFile, m.pager.bitmapSwap, m.pager.pages,
      m.programList, m.pager.segments
    ensures m.Valid() && Is(m, After(s, rq, m.pager.pageSize))
            && Steps(old(m.heaps), rq, s.room, m.heaps, m.pager.pageSize)
    ensures Returns(rq, HeapIn(old(m.heaps), rq.pid), s.room, m.pager.pageSize, r, data)
    ensures old(m.pager.pages) <= m.pager.pages && fresh(m.pager.pages - old(m.pager.pages))
    ensures forall i :: 0 <= i < |m.programList| ==> m.programList[i] in old(m.programList) || fresh(m.programList[i])
    ensures forall i :: 0 <= i < |m.pager.segments| ==>
            m.pager.segments[i] in old(m.pager.segments) || fresh(m.pager.segments[i])
  {
    hide *;
    ghost var hs, ps := m.heaps, m.pager.pageSize;
    HeapsGood(m);
    HeapAt(m, s);
    GoodHeapOf(m, rq.pid);
    LimitIs(m.HeapOf(rq.pid));
    RequestIs(s, rq, m.HeapOf(rq.pid), ps);
    AfterIs(s, rq, ps);
    r, data := 0, [];
    match rq {
      case Alloc(pid, size) =>
        r := m.MemoryMalloc(size, pid, false);
        HeapsGood(m);
        AllocSteps(hs, pid, size, s.room, m.heaps, ps);
      case Free(pid, address) =>
        HeapInIs(hs, pid);
        r := m.MemoryFree(address, pid);
        HeapsGood(m);
        FreeSteps(hs, pid, address, s.room, m.heaps, ps);
      case Copy(pid, dst, src) =>
        r := m.MemoryCpy(dst, src, pid, BlockAt(m.HeapOf(pid).blocks, dst));
        HeapsGood(m);
        CopySteps(hs, pid, dst, src, s.room, m.heaps, ps);
      case Get(pid, at, n) =>
        r, data := m.MemoryGet(at, n, pid);
        HeapsGood(m);
        GetSteps(hs, pid, at, n, s.room, m.heaps, ps);
    }
    ReturnsWhen(rq, HeapIn(hs, rq.pid), s.room, ps, r, data);
    IsAfter(m, s, rq, hs, ps);
  }

  /** The run of a list of requests: the heaps before each and after the last, and the free
      frames and swap slots that each found. */
  ghost predicate Runs(run: seq<map<nat, Heap>>, rqs: seq<Call>, rooms: seq<nat>, ps: nat)
    requires ps > 0
  {
    |run| == |rqs| + 1 && |rooms| == |rqs| && forall i :: 0 <= i < |rqs| ==>
      Steps(run[i], rqs[i], rooms[i], run[i + 1], ps)
  }

  lemma RunsNone(hs: map<nat, Heap>, ps: nat)
    requires ps > 0
    ensures Runs([hs], [], [], ps)
  {
  }

  lemma RunsMore(hs: map<nat, Heap>, rqs: seq<Call>, room: nat, run: seq<map<nat, Heap>>, rooms: seq<nat>, ps: nat)
    requires ps > 0 && rqs != [] && Runs(run, rqs[1..], rooms, ps) && Steps(hs, rqs[0], room, run[0], ps)
    ensures Runs([hs] + run, rqs, [room] + rooms, ps)
  {
    var all, rs := [hs] + run, [room] + rooms;
    forall i | 0 <= i < |rqs| ensures Steps(all[i], rqs[i], rs[i], all[i + 1], ps) {
      if i > 0 {
        assert Steps(run[i - 1], rqs[1..][i - 1], rooms[i - 1], run[i], ps);
      }
    }
  }

  lemma AllAllowedIs(s: State, rqs: seq<Call>, ps: nat)
    requires ps > 0 && AllAllowed(s, rqs, ps) && rqs != []
    ensures Allowed(BlocksOf(s, rqs[0].pid), s.room, rqs[0], ps) && AllAllowed(After(s, rqs[0], ps), rqs[1..], ps)
  {
  }

  /** The free frames and swap slots that each of the requests finds. */
  function RoomsOf(s: State, rqs: seq<Call>, ps: nat): (rooms: seq<nat>)
    requires ps > 0
    ensures |rooms| == |rqs|
    decreases |rqs|
  {
    if rqs == [] then [] else [s.room] + RoomsOf(After(s, rqs[0], ps), rqs[1..], ps)
  }

  /** What the requests of a run return. */
  ghost predicate Returned(run: seq<map<nat, Heap>>, rqs: seq<Call>, rooms: seq<nat>, ps: nat, rs: seq<int>,
                           ds: seq<seq<byte>>)
    requires ps > 0 && Runs(run, rqs, rooms, ps)
  {
    && |rs| == |ds| == |rqs|
    && forall i :: 0 <= i < |rqs| ==> Returns(rqs[i], HeapIn(run[i], rqs[i].pid), rooms[i], ps, rs[i], ds[i])
  }

  lemma NoneReturned(hs: map<nat, Heap>, ps: nat)
    requires ps > 0
    ensures Runs([hs], [], [], ps) && Returned([hs], [], [], ps, [], [])
  {
    RunsNone(hs, ps);
  }

  lemma NoRooms(s: State, ps: nat)
    requires ps > 0
    ensures RoomsOf(s, [], ps) == []
  {
  }

  lemma MoreReturned(hs: map<nat, Heap>, s: State, rqs: seq<Call>, run: seq<map<nat, Heap>>, ps: nat, r: int,
                     d: seq<byte>, rs: seq<int>, ds: seq<seq<byte>>)
    requires ps > 0 && rqs != [] && run != []
    requires var rooms := RoomsOf(After(s, rqs[0], ps), rqs[1..], ps);
             Runs(run, rqs[1..], rooms, ps) && Returned(run, rqs[1..], rooms, ps, rs, ds)
    requires Steps(hs, rqs[0], s.room, run[0], ps) && Returns(rqs[0], HeapIn(hs, rqs[0].pid), s.room, ps, r, d)
    ensures Runs([hs] + run, rqs, RoomsOf(s, rqs, ps), ps)
    ensures Returned([hs] + run, rqs, RoomsOf(s, rqs, ps), ps, [r] + rs, [d] + ds)
  {
    hide After, Steps, Returns;
    var rooms := RoomsOf(After(s, rqs[0], ps), rqs[1..], ps);
    RunsMore(hs, rqs, s.room, run, rooms, ps);
    var all, rt, dt, mt := [hs] + run, [r] + rs, [d] + ds, [s.room] + rooms;
    forall i | 0 <= i < |rqs| ensures Returns(rqs[i], HeapIn(all[i], rqs[i].pid), mt[i], ps, rt[i], dt[i]) {
      if i > 0 {
        var rq, h := rqs[1..][i - 1], HeapIn(run[i - 1], rqs[1..][i - 1].pid);
        assert Returns(rq, h, rooms[i - 1], ps, rs[i - 1], ds[i - 1]);
      }
    }
  }

  /** Any list of requests of any programs is a run, and returns what its heaps say. */
  method ServeAll(m: Muse, rqs: seq<Call>, ghost s: State)
      returns (rs: seq<int>, ds: seq<seq<byte>>, ghost run: seq<map<nat, Heap>>)
    requires m.Valid() && m.pager.pageSize > 0 && Is(m, s) && AllAllowed(s, rqs, m.pager.pageSize)
    modifies m, m.pager, m.pager.frames, m.pager.bitmap, m.pager.swapFile, m.pager.bitmapSwap, m.pager.pages,
      m.programList, m.pager.segments
    ensures m.Valid() && |run| == |rqs| + 1 && run[0] == old(m.heaps) && run[|rqs|] == m.heaps
    ensures var ps := m.pager.pageSize; var rooms := RoomsOf(s, rqs, ps);
            Runs(run, rqs, rooms, ps) && Returned(run, rqs, rooms, ps, rs, ds)
    ensures old(m.pager.pages) <= m.pager.pages && fresh(m.pager.pages - old(m.pager.pages))
    ensures forall i :: 0 <= i < |m.programList| ==> m.programList[i] in old(m.programList) || fresh(m.programList[i])
    ensures forall i :: 0 <= i < |m.pager.segments| ==>
            m.pager.segments[i] in old(m.pager.segments) || fresh(m.pager.segments[i])
    decreases |rqs|
  {
    hide *;
    if rqs == [] {
      NoRooms(s, m.pager.pageSize);
      NoneReturned(m.heaps, m.pager.pageSize);
      return [], [], [m.heaps];
    }
    ghost var hs, ps := m.heaps, m.pager.pageSize;
    AllAllowedIs(s, rqs, ps);
    var r, d := Serve(m, rqs[0], s);
    var rt, dt;
    ghost var more;
    rt, dt, more := ServeAll(m, rqs[1..], After(s, rqs[0], ps));
    MoreReturned(hs, s, rqs, more, ps, r, d, rt, dt);
    rs, ds, run := [r] + rt, [d] + dt, [hs] + more;
  }

  /** The request neither frees nor writes what program `pid` has at `dst`. */
  predicate LeavesAlone(rq: Call, pid: nat, dst: nat) {
    rq.pid == pid ==> !(rq.Free? && rq.address == dst) && !(rq.Copy? && rq.dst == dst)
  }

  /** What a run does to a live block of a program that its requests leave alone. */
  lemma RunSpares(run: seq<map<nat, Heap>>, rqs: seq<Call>, rooms: seq<nat>, ps: nat, pid: nat, x: Block)
    requires ps > 0 && Runs(run, rqs, rooms, ps) && AllGood(run[0]) && x in Live(HeapIn(run[0], pid).blocks)
    requires forall i :: 0 <= i < |rqs| ==> LeavesAlone(rqs[i], pid, x.Payload())
    ensures var h, g := HeapIn(run[0], pid), HeapIn(run[|rqs|], pid);
            x in Live(g.blocks) && x.End() <= |h.mem| <= |g.mem|
              && g.mem[x.Payload()..x.End()] == h.mem[x.Payload()..x.End()]
  {
    var hs := seq(|run|, i requires 0 <= i < |run| => HeapIn(run[i], pid));
    var es := seq(|rqs|, i requires 0 <= i < |rqs| => EventFor(rqs[i], pid, hs[i], rooms[i]));
    forall i | 0 <= i < |es| ensures Step(hs[i], es[i], hs[i + 1], ps) && Spares(hs[i], es[i], x) {
      assert Steps(run[i], rqs[i], rooms[i], run[i + 1], ps) && LeavesAlone(rqs[i], pid, x.Payload());
    }
    assert GoodHeap(HeapIn(run[0], pid));
    Survives(hs, es, ps, x);
  }

  lemma IsSame(m: Muse, s: State)
    requires forall p :: HeapIn(m.heaps, p).blocks == BlocksOf(s, p)
    requires m.pager.HasRoom() && m.Room() == s.room && forall p :: m.HeapOf(p) == HeapIn(m.heaps, p)
    ensures Is(m, s)
  {
  }

  /** What memory_cpy wrote to a live block is what memory_get returns after any list of
      requests, of this program and of others, that leaves the block alone: wherever its pages
      have been meanwhile. */
  method CopyServeGet(m: Muse, pid: nat, dst: nat, src: seq<byte>, rqs: seq<Call>, ghost s: State)
      returns (code: int, data: seq<byte>)
    requires m.Valid() && m.pager.pageSize > 0 && Is(m, s) && AllAllowed(s, rqs, m.pager.pageSize)
    requires var b := m.HeapOf(pid).blocks; var k := IndexOf(b, dst); k < |b| && |src| <= b[k].size
    requires forall i :: 0 <= i < |rqs| ==> LeavesAlone(rqs[i], pid, dst)
    modifies m, m.pager, m.pager.frames, m.pager.bitmap, m.pager.swapFile, m.pager.bitmapSwap, m.pager.pages,
      m.programList, m.pager.segments
    ensures m.Valid() && code == 0 && data == src
  {
    hide *;
    ghost var h, k, ps := m.HeapOf(pid), IndexOf(m.HeapOf(pid).blocks, dst), m.pager.pageSize;
    HeapsGood(m);
    HeapAt(m, s);
    GoodHeapOf(m, pid);
    LiveBlock(h, k);
    ghost var hs := m.heaps;
    var _ := m.MemoryCpy(dst, src, pid, k);
    HeapsGood(m);
    ghost var g := Heap(h.blocks, Splice(h.mem, dst, src));
    Rewritten(hs, pid, g, m.heaps);
    IsSame(m, s);
    var _, _, run := ServeAll(m, rqs, s);
    HeapsGood(m);
    RunSpares(run, rqs, RoomsOf(s, rqs, ps), ps, pid, h.blocks[k]);
    ReadsBack(h.mem, dst, src, h.blocks[k].End(), m.HeapOf(pid), h.blocks[k]);
    code, data := m.MemoryGet(dst, |src|, pid);
  }

  lemma Rewritten(hs: map<nat, Heap>, pid: nat, g: Heap, now: map<nat, Heap>)
    requires now == hs[pid := g] && g.blocks == HeapIn(hs, pid).blocks
    ensures HeapIn(now, pid) == g && forall p :: HeapIn(now, p).blocks == HeapIn(hs, p).blocks
  {
  }

  lemma ReadsBack(mem: seq<byte>, dst: nat, src: seq<byte>, end: nat, h: Heap, x: Block)
    requires dst + |src| <= end <= |mem| <= |h.mem| && h.mem[dst..end] == Splice(mem, dst, src)[dst..end]
             && x in Live(h.blocks)
    ensures h.mem[dst..dst + |src|] == src && h.blocks != []
  {
    SliceOfSlice(h.mem, dst, end, 0, |src|);
    SliceOfSlice(Splice(mem, dst, src), dst, end, 0, |src|);
    assert Splice(mem, dst, src)[dst..dst + |src|] == src;
  }

  lemma LiveBlock(h: Heap, k: nat)
    requires GoodHeap(h) && k < |h.blocks| && !h.blocks[k].free
    ensures h.blocks[k] in Live(h.blocks) && h.blocks[k].End() <= |h.mem|
    ensures h.blocks[k].End() == h.blocks[k].Payload() + h.blocks[k].size && h.blocks != []
  {
    UsedMember(h.blocks, h.blocks[k]);
    TilesOrder(h.blocks, 0, |h.mem|, k);
  }
}
