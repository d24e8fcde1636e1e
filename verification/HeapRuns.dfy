/** Whole runs of a program's requests: what a live allocation holds. */
module HeapRuns {
  import opened Bytes
  import opened Sequences
  import opened Blocks
  import opened HeapSpec
  import opened SegmentHeap
  import opened HeapRequests
  import opened Muse

  /** What a request does to the heap of one program; `Untouched` when it only reads, fails
      or is another program's. */
  datatype Event = Malloced(size: int, room: nat) | Freed(address: nat) | Copied(k: nat, data: seq<byte>) | Untouched

  /** The heaps that `Muse.Valid` allows. */
  ghost predicate GoodHeap(h: Heap) {
    if h.blocks == [] then h.mem == [] else HeapInv(h.blocks, |h.mem|)
  }

  /** Between requests every program's heap is good, and its `using_memory` is what its live
      blocks add up to. */
  lemma ValidHeaps(m: Muse, i: nat)
    requires m.Valid() && i < |m.programList|
    ensures var pid := m.programList[i].pid;
            pid in m.heaps && GoodHeap(m.heaps[pid]) && m.programList[i].usingMemory == Total(Used(m.heaps[pid].blocks))
  {
    m.ProgramFacts(i);
  }

  lemma GoodHeapOf(m: Muse, pid: nat)
    requires m.Valid()
    ensures GoodHeap(m.HeapOf(pid)) && |m.HeapOf(pid).mem| < WORD && m.pager.HasRoom()
  {
    m.ValidFacts();
    if pid in m.heaps {
      var i :| 0 <= i < |m.programList| && m.programList[i].pid == pid;
      m.ProgramFacts(i);
    }
  }

  lemma HeapIsAt(m: Muse, pid: nat)
    ensures m.HeapOf(pid) == if pid in m.heaps then m.heaps[pid] else Heap([], [])
  {
  }

  /** How a request changes the heap of one program. */
  ghost predicate Step(h: Heap, e: Event, g: Heap, ps: nat)
    requires ps > 0
  {
    && GoodHeap(h) && GoodHeap(g)
    && match e
       case Malloced(size, room) =>
         g.blocks == Malloc(h.blocks, size, room, ps).blocks && PayloadsKept(h.mem, g.mem, h.blocks)
       case Freed(address) =>
         var k := IndexOf(h.blocks, address);
         && k < |h.blocks|
         && g.blocks == Release(h.blocks, k, true) && PayloadsKept(h.mem, g.mem, Marked(h.blocks, k))
       case Copied(k, data) =>
         && k < |h.blocks| && !h.blocks[k].free && |data| <= h.blocks[k].size
         && h.blocks[k].Payload() + |data| <= |h.mem|
         && g == Heap(h.blocks, Splice(h.mem, h.blocks[k].Payload(), data))
       case Untouched => g == h
  }

  ghost predicate Spares(h: Heap, e: Event, x: Block) {
    match e
    case Malloced(_, _) => true
    case Freed(address) => address != x.Payload()
    case Copied(k, _) => k < |h.blocks| && h.blocks[k] != x
    case Untouched => true
  }

  lemma {:induction false} LiveIndex(h: Heap, x: Block) returns (j: nat)
    requires GoodHeap(h) && x in Live(h.blocks)
    ensures j < |h.blocks| && h.blocks[j] == x && !x.free && x.End() <= |h.mem|
    ensures forall i :: 0 <= i < |h.blocks| && i != j ==> h.blocks[i].End() <= x.addr || x.End() <= h.blocks[i].addr
  {
    UsedMember(h.blocks, x);
    UsedNone();
    j :| 0 <= j < |h.blocks| && h.blocks[j] == x;
    forall i | 0 <= i < |h.blocks| && i != j ensures h.blocks[i].End() <= x.addr || x.End() <= h.blocks[i].addr {
      TilesOrder(h.blocks, 0, |h.mem|, i);
      TilesOrder(h.blocks, 0, |h.mem|, j);
    }
    TilesOrder(h.blocks, 0, |h.mem|, j);
  }

  lemma MallocStep(h: Heap, size: int, room: nat, g: Heap, ps: nat, x: Block)
    requires ps > 0 && Step(h, Malloced(size, room), g, ps) && x in Live(h.blocks)
    ensures x in Live(g.blocks) && x.End() <= |h.mem| <= |g.mem|
    ensures g.mem[x.Payload()..x.End()] == h.mem[x.Payload()..x.End()]
  {
    var j := LiveIndex(h, x);
    MallocKeeps(Machine(h.blocks, |h.mem|, Total(Used(h.blocks))), size, room, ps);
  }

  lemma FreeStep(h: Heap, address: nat, g: Heap, ps: nat, x: Block)
    requires ps > 0 && Step(h, Freed(address), g, ps) && x in Live(h.blocks) && address != x.Payload()
    ensures x in Live(g.blocks) && x.End() <= |h.mem| <= |g.mem|
    ensures g.mem[x.Payload()..x.End()] == h.mem[x.Payload()..x.End()]
  {
    hide Release, HeapInv, Live, Used;
    var j := LiveIndex(h, x);
    var k := IndexOf(h.blocks, address);
    ReleaseKeeps(h.blocks, |h.mem|, k);
    assert Marked(h.blocks, k)[j] == x;
  }

  lemma CopyStep(h: Heap, k: nat, data: seq<byte>, g: Heap, ps: nat, x: Block)
    requires ps > 0 && Step(h, Copied(k, data), g, ps) && x in Live(h.blocks) && k < |h.blocks| && h.blocks[k] != x
    ensures x in Live(g.blocks) && x.End() <= |h.mem| <= |g.mem|
    ensures g.mem[x.Payload()..x.End()] == h.mem[x.Payload()..x.End()]
  {
    var j := LiveIndex(h, x);
  }

  /** Over every run of a program's requests, a live allocation that is neither freed nor
      written keeps its place, its size and its bytes, wherever its pages have been. */
  lemma {:induction false} Survives(hs: seq<Heap>, es: seq<Event>, ps: nat, x: Block)
    requires ps > 0 && |hs| == |es| + 1
    requires forall i :: 0 <= i < |es| ==> Step(hs[i], es[i], hs[i + 1], ps) && Spares(hs[i], es[i], x)
    requires GoodHeap(hs[0]) && x in Live(hs[0].blocks)
    ensures x in Live(hs[|es|].blocks) && x.End() <= |hs[0].mem| <= |hs[|es|].mem|
    ensures hs[|es|].mem[x.Payload()..x.End()] == hs[0].mem[x.Payload()..x.End()]
    decreases |es|
  {
    var _ := LiveIndex(hs[0], x);
    if es != [] {
      assert Step(hs[0], es[0], hs[1], ps) && Spares(hs[0], es[0], x);
      match es[0] {
        case Malloced(size, room) => MallocStep(hs[0], size, room, hs[1], ps, x);
        case Freed(address) => FreeStep(hs[0], address, hs[1], ps, x);
        case Copied(k, data) => CopyStep(hs[0], k, data, hs[1], ps, x);
        case Untouched =>
      }
      var ht, et := hs[1..], es[1..];
      forall i | 0 <= i < |et| ensures Step(ht[i], et[i], ht[i + 1], ps) && Spares(ht[i], et[i], x) {
        assert Step(hs[i + 1], es[i + 1], hs[i + 2], ps) && Spares(hs[i + 1], es[i + 1], x);
      }
      Survives(ht, et, ps, x);
    }
  }

  /** What `memory_cpy` wrote to a live block is what `memory_get` returns after any run of
      requests that neither free the block nor write it again. */
  lemma ReadsAsLastWritten(hs: seq<Heap>, es: seq<Event>, ps: nat)
    requires ps > 0 && es != [] && |hs| == |es| + 1 && es[0].Copied? && es[0].k < |hs[0].blocks|
    requires forall i :: 0 <= i < |es| ==> Step(hs[i], es[i], hs[i + 1], ps)
    requires forall i :: 1 <= i < |es| ==> Spares(hs[i], es[i], hs[0].blocks[es[0].k])
    ensures var dst := hs[0].blocks[es[0].k].Payload();
            && dst + |es[0].data| <= |hs[|es|].mem|
            && hs[|es|].mem[dst..dst + |es[0].data|] == es[0].data
  {
    var x, data := hs[0].blocks[es[0].k], es[0].data;
    assert Step(hs[0], es[0], hs[1], ps);
    UsedMember(hs[0].blocks, x);
    var ht, et := hs[1..], es[1..];
    forall i | 0 <= i < |et| ensures Step(ht[i], et[i], ht[i + 1], ps) && Spares(ht[i], et[i], x) {
      assert Step(hs[i + 1], es[i + 1], hs[i + 2], ps) && Spares(hs[i + 1], es[i + 1], x);
    }
    Survives(ht, et, ps, x);
    hide *;
    var dst := x.Payload();
    SliceOfSlice(hs[|es|].mem, dst, x.End(), 0, |data|);
    SliceOfSlice(hs[1].mem, dst, x.End(), 0, |data|);
    SpliceReads(hs[0].mem, dst, data);
  }

  lemma SpliceReads(mem: seq<byte>, at: nat, data: seq<byte>)
    requires at + |data| <= |mem|
    ensures Splice(mem, at, data)[at..at + |data|] == data
  {
  }
}
