/** MUSE: the programs, their heap segments and the four requests on them. */
module Muse {
  import opened Bytes
  import opened Sequences
  import opened Pages
  import opened Paging
  import opened FlatMemory
  import opened Blocks
  import opened HeapSpec
  import opened SegmentHeap
  import opened HeapRequests

  /** What a program's heap is: its blocks, and its bytes from logical address 0 on. */
  datatype Heap = Heap(blocks: seq<Block>, mem: seq<byte>)

  const INT: int := 0x8000_0000   // addresses are kept in ints

  const NO_SEGMENT: int := -3
  const OUT_OF_SEGMENT: int := -4

  class Program {
    const pid: nat
    var segmentTable: seq<Segment>
    var usingMemory: int

    constructor (pid: nat)
      ensures this.pid == pid && segmentTable == [] && usingMemory == 0
    {
      this.pid, segmentTable, usingMemory := pid, [], 0;
    }
  }

  ghost function SegmentTables(ps: seq<Program>): (ts: seq<seq<Segment>>)
    reads ps`segmentTable
    ensures |ts| == |ps| && forall i :: 0 <= i < |ps| ==> ts[i] == ps[i].segmentTable
  {
    if ps == [] then [] else SegmentTables(ps[..|ps| - 1]) + [ps[|ps| - 1].segmentTable]
  }

  /** `lista_de_segmentos`. */
  ghost function SegmentsOf(ps: seq<Program>): seq<Segment>
    reads ps`segmentTable
  {
    Concat(SegmentTables(ps))
  }

  lemma SegmentsOfMore(ps: seq<Program>, prog: Program)
    requires prog.segmentTable == []
    ensures SegmentsOf(ps + [prog]) == SegmentsOf(ps)
  {
    assert (ps + [prog])[..|ps|] == ps;
    assert SegmentTables(ps + [prog])[..|ps|] == SegmentTables(ps);
  }

  ghost function SegmentSet(ps: seq<Program>): (r: set<Segment>)
    reads ps`segmentTable
    ensures forall i, s :: 0 <= i < |ps| && s in ps[i].segmentTable ==> s in r
  {
    set i, s | 0 <= i < |ps| && s in ps[i].segmentTable :: s
  }

  /** The program's segment holds the heap `h`, given what the pages hold. */
  ghost predicate HeapIs(prog: Program, h: Heap, contents: map<Page, seq<byte>>, ps: nat)
    reads prog, prog.segmentTable
  {
    && prog.usingMemory == Total(Used(h.blocks))
    && if prog.segmentTable == [] then h == Heap([], []) else
       && |prog.segmentTable| == 1
       && var seg := prog.segmentTable[0];
          && seg.limit == |h.mem| < WORD
          && Backed(seg.pageTable, contents, ps) && h.mem == Flat(seg.pageTable, contents, ps)
          && Tiled(h.mem, h.blocks) && HeapInv(h.blocks, |h.mem|)
  }

  /** The pages of the segment of a program, which has no more than one. */
  ghost function Table(prog: Program): seq<Page>
    reads prog, prog.segmentTable
  {
    if prog.segmentTable == [] then [] else prog.segmentTable[0].pageTable
  }

  lemma TableIs(prog: Program)
    requires |prog.segmentTable| == 1
    ensures Table(prog) == prog.segmentTable[0].pageTable && META == 5
  {
  }

  lemma NoHeap(prog: Program, contents: map<Page, seq<byte>>, ps: nat)
    requires prog.segmentTable == [] && prog.usingMemory == 0
    ensures HeapIs(prog, Heap([], []), contents, ps)
  {
  }

  class Muse {
    const pager: Pager
    var programList: seq<Program>
    ghost var heaps: map<nat, Heap>

    ghost predicate Listed()
      reads `programList, `heaps, pager`segments, programList`segmentTable
    {
      && pager.segments == SegmentsOf(programList)
      && (forall i, j :: 0 <= i < j < |programList| ==> programList[i].pid != programList[j].pid)
      && heaps.Keys == set p | p in programList :: p.pid
    }

    ghost predicate PagerOk()
      reads pager, pager.frames, pager.bitmap, pager.swapFile, pager.bitmapSwap, pager.pages, pager.segments
    {
      && pager.Sound() && pager.HasRoom()
      && Start(pager.bitmap.Length + pager.bitmapSwap.Length, pager.pageSize) < INT
    }

    /** Every program but the one at `k` has its heap when the pages hold `contents`. */
    ghost predicate HeapsBut(k: int, contents: map<Page, seq<byte>>)
      requires Listed()
      reads this, pager, programList, SegmentSet(programList)
    {
      forall i :: 0 <= i < |programList| && i != k ==>
        HeapIs(programList[i], heaps[programList[i].pid], contents, pager.pageSize)
    }

    /** The invariant between requests: the pager is sound, with a frame or swap slot to
        spare, and every program has the heap that `heaps` says. */
    ghost predicate Valid()
      reads this, pager, pager.frames, pager.bitmap, pager.swapFile, pager.bitmapSwap, pager.pages, pager.segments
      reads programList, SegmentSet(programList)
    {
      PagerOk() && Listed() && HeapsBut(-1, pager.contents)
    }

    /** The heap of a program that may not be registered yet. */
    ghost function HeapOf(pid: nat): Heap
      reads `heaps
    {
      if pid in heaps then heaps[pid] else Heap([], [])
    }

    /** Free frames and free swap slots. */
    ghost function Room(): (r: nat)
      requires pager.HasRoom()
      reads pager`pages
    {
      pager.bitmap.Length + pager.bitmapSwap.Length - |pager.pages|
    }

    lemma SegmentAt(k: nat, seg: Segment)
      requires Listed() && Distinct(pager.segments) && k < |programList| && seg in programList[k].segmentTable
      ensures seg in pager.segments
      ensures forall i :: 0 <= i < |programList| && i != k ==> seg !in programList[i].segmentTable
    {
      var ts := SegmentTables(programList);
      var j :| 0 <= j < |ts[k]| && ts[k][j] == seg;
      ConcatSlice(ts, k);
      assert Concat(ts)[|Concat(ts[..k])| + j] == Concat(ts)[|Concat(ts[..k])|..|Concat(ts[..k])| + |ts[k]|][j];
      forall i | 0 <= i < |programList| && i != k ensures seg !in programList[i].segmentTable {
        if seg in ts[i] {
          var l :| 0 <= l < |ts[i]| && ts[i][l] == seg;
          ConcatApart(ts, i, l, k, j);
        }
      }
    }

    /** What a request on the program at `k` starts from. */
    /** The pages of the program called `pid`. */
    ghost function PageTable(pid: nat): seq<Page>
      reads *
    {
      if prog :| prog in programList && prog.pid == pid then Table(prog) else []
    }

    lemma PageTables()
      requires Valid()
      ensures forall i :: 0 <= i < |programList| ==> PageTable(programList[i].pid) == Table(programList[i])
    {
    }

    lemma ProgramFacts(k: nat)
      requires Valid() && k < |programList|
      ensures PagerOk() && Listed() && pager.Sound() && pager.HasRoom() && pager.pageSize >= 4
      ensures pager.segments != [] ==> pager.segmentoClock < |pager.segments|
      ensures Start(pager.bitmap.Length + pager.bitmapSwap.Length, pager.pageSize) < INT
      ensures var prog := programList[k];
              && prog.pid in heaps
              && var h := heaps[prog.pid];
                 && prog.usingMemory == Total(Used(h.blocks))
                 && if prog.segmentTable == [] then h == Heap([], []) else
                    && |prog.segmentTable| == 1
                    && var seg := prog.segmentTable[0];
                       && seg in pager.segments && seg.limit == |h.mem|
                       && Walkable(pager, seg, h.mem, h.blocks) && HeapInv(h.blocks, |h.mem|)
                       && Ready(pager, seg, h.mem)
    {
      var prog := programList[k];
      assert HeapIs(prog, heaps[prog.pid], pager.contents, pager.pageSize);
      if prog.segmentTable != [] {
        SegmentAt(k, prog.segmentTable[0]);
        StillReady(pager, prog.segmentTable[0], heaps[prog.pid].mem);
      }
    }

    /** And of the other programs. */
    lemma OtherFacts(k: nat)
      requires Valid() && k < |programList|
      ensures forall i :: 0 <= i < |programList| && i != k ==>
                && programList[i] != programList[k] && programList[i].pid != programList[k].pid
                && programList[i].pid in heaps
                && HeapIs(programList[i], heaps[programList[i].pid], pager.contents, pager.pageSize)
    {
    }

    lemma OtherKept(seg: Segment, other: Segment, c: map<Page, seq<byte>>)
      requires pager.Sound() && seg in pager.segments && other in pager.segments && seg != other
      requires OthersKept(c, pager.contents, seg.pageTable) && Backed(other.pageTable, c, pager.pageSize)
      ensures Backed(other.pageTable, pager.contents, pager.pageSize)
      ensures Flat(other.pageTable, pager.contents, pager.pageSize) == Flat(other.pageTable, c, pager.pageSize)
    {
      var ss := pager.segments;
      var a :| 0 <= a < |ss| && ss[a] == seg;
      var b :| 0 <= b < |ss| && ss[b] == other;
      forall i | 0 <= i < |other.pageTable| ensures other.pageTable[i] !in seg.pageTable {
        if other.pageTable[i] in seg.pageTable {
          var j :| 0 <= j < |seg.pageTable| && seg.pageTable[j] == other.pageTable[i];
          ConcatApart(TablesOf(ss), a, j, b, i);
        }
      }
      FlatSame(other.pageTable, c, pager.contents, pager.pageSize);
    }

    /** After a request that kept the pages of the other segments, the other programs' heaps
        are as they were. */
    lemma Settle(k: nat, c: map<Page, seq<byte>>)
      requires Listed() && k < |programList|
      requires Start(pager.bitmap.Length + pager.bitmapSwap.Length, pager.pageSize) < INT
      requires forall i :: 0 <= i < |programList| && i != k ==>
               HeapIs(programList[i], heaps[programList[i].pid], c, pager.pageSize)
      requires var prog := programList[k];
               && |prog.segmentTable| == 1
               && OthersKept(c, pager.contents, prog.segmentTable[0].pageTable)
               && var h := heaps[prog.pid];
                  && prog.usingMemory == Total(Used(h.blocks))
                  && Walkable(pager, prog.segmentTable[0], h.mem, h.blocks) && HeapInv(h.blocks, |h.mem|)
      ensures Valid()
    {
      hide Total, Used, HeapInv, OthersKept, Pager.Sound, Backed, Flat;
      var seg := programList[k].segmentTable[0];
      pager.SoundFacts();
      pager.ListedFacts();
      SegmentAt(k, seg);
      ReadyFacts(pager, seg, heaps[programList[k].pid].mem);
      forall i | 0 <= i < |programList| && i != k
        ensures HeapIs(programList[i], heaps[programList[i].pid], pager.contents, pager.pageSize)
      {
        if programList[i].segmentTable != [] {
          SegmentAt(i, programList[i].segmentTable[0]);
          OtherKept(seg, programList[i].segmentTable[0], c);
        }
      }
    }

    /** A request adds no program and takes none away. */
    lemma StillListed(ps: seq<Program>, hs: map<nat, Heap>)
      requires pager.segments == SegmentsOf(ps) && programList == ps
      requires forall i, j :: 0 <= i < j < |ps| ==> ps[i].pid != ps[j].pid
      requires hs.Keys == (set p | p in ps :: p.pid) && heaps.Keys == hs.Keys
      ensures Listed()
    {
    }

    /** The end of a request on the program at `k`: its `using_memory` is `using` and its heap
        is `h` from now on. */
    method Commit(k: nat, prog: Program, using: int, ghost c: map<Page, seq<byte>>, ghost h: Heap)
      requires Listed() && k < |programList| && prog == programList[k] && prog.pid in heaps
      requires Start(pager.bitmap.Length + pager.bitmapSwap.Length, pager.pageSize) < INT
      requires forall i :: 0 <= i < |programList| && i != k ==>
        && programList[i] != prog && programList[i].pid != prog.pid && programList[i].pid in heaps
        && HeapIs(programList[i], heaps[programList[i].pid], c, pager.pageSize)
      requires |prog.segmentTable| == 1 && using == Total(Used(h.blocks))
      requires OthersKept(c, pager.contents, prog.segmentTable[0].pageTable)
      requires Walkable(pager, prog.segmentTable[0], h.mem, h.blocks) && HeapInv(h.blocks, |h.mem|)
      modifies prog`usingMemory, `heaps
      ensures prog.usingMemory == using && heaps == old(heaps)[prog.pid := h]
      ensures Valid()
    {
      hide *;
      ListedIs();
      prog.usingMemory := using;
      heaps := heaps[prog.pid := h];
      StillListed(programList, old(heaps));
      Settle(k, c);
    }

    lemma ListedIs()
      requires Listed()
      ensures pager.segments == SegmentsOf(programList)
      ensures forall i, j :: 0 <= i < j < |programList| ==> programList[i].pid != programList[j].pid
      ensures heaps.Keys == set p | p in programList :: p.pid
    {
    }

    constructor (memorySize: nat, pageSize: nat, swapSize: nat)
      requires 4 <= pageSize <= memorySize && memorySize + swapSize < INT
      ensures Valid() && heaps == map[] && programList == []
      ensures pager.pageSize == pageSize && Room() == memorySize / pageSize + swapSize / pageSize
      ensures fresh(pager) && fresh(pager.frames) && fresh(pager.bitmap) && fresh(pager.swapFile)
              && fresh(pager.bitmapSwap)
      ensures pager.pages == {} && pager.segments == []
    {
      pager := new Pager(memorySize, pageSize, swapSize);
      programList, heaps := [], map[];
      new;
      pager.SoundWhenListed();
      FramesFit(memorySize, swapSize, pageSize);
    }

    /** `search_program`. */
    method SearchProgram(pid: nat) returns (i: int)
      requires Valid()
      ensures Valid()
      ensures i == -1 <==> pid !in heaps
      ensures i != -1 ==> 0 <= i < |programList| && programList[i].pid == pid
    {
      hide *;
      ValidFacts();
      i := 0;
      while i < |programList|
        invariant 0 <= i <= |programList|
        invariant forall j :: 0 <= j < i ==> programList[j].pid != pid
      {
        if programList[i].pid == pid {
          AllHeaps();
          return;
        }
        i := i + 1;
      }
      i := -1;
      AllHeaps();
    }

    lemma Registered(ps: seq<Program>, hs: map<nat, Heap>, prog: Program)
      requires programList == ps + [prog] && prog.pid !in hs && heaps == hs[prog.pid := Heap([], [])]
      requires prog.segmentTable == [] && prog.usingMemory == 0
      requires PagerOk() && pager.segments == SegmentsOf(ps)
      requires forall i, j :: 0 <= i < j < |ps| ==> ps[i].pid != ps[j].pid
      requires hs.Keys == set p | p in ps :: p.pid
      requires forall i :: 0 <= i < |ps| ==> HeapIs(ps[i], hs[ps[i].pid], pager.contents, pager.pageSize)
      ensures Valid()
    {
      hide *;
      NoHeap(prog, pager.contents, pager.pageSize);
      RegisteredListed(ps, hs, prog);
      AllHeaps();
    }

    lemma RegisteredListed(ps: seq<Program>, hs: map<nat, Heap>, prog: Program)
      requires programList == ps + [prog] && prog.pid !in hs && heaps == hs[prog.pid := Heap([], [])]
      requires prog.segmentTable == [] && pager.segments == SegmentsOf(ps)
      requires forall i, j :: 0 <= i < j < |ps| ==> ps[i].pid != ps[j].pid
      requires hs.Keys == set p | p in ps :: p.pid
      ensures Listed() && forall i :: 0 <= i < |ps| ==> ps[i].pid in hs && ps[i].pid != prog.pid
    {
      hide SegmentsOf, SegmentTables;
      SegmentsOfMore(ps, prog);
      forall i | 0 <= i < |ps| ensures ps[i].pid in hs.Keys {
        assert ps[i] in ps;
      }
      assert forall p :: p in programList <==> p in ps || p == prog;
      assert heaps.Keys == set p | p in programList :: p.pid;
    }

    lemma AllHeaps()
      requires PagerOk() && Listed()
      requires forall i :: 0 <= i < |programList| ==>
        programList[i].pid in heaps && HeapIs(programList[i], heaps[programList[i].pid], pager.contents, pager.pageSize)
      ensures Valid()
    {
    }

    lemma ValidFacts()
      requires Valid()
      ensures PagerOk() && Listed() && pager.segments == SegmentsOf(programList)
      ensures forall i, j :: 0 <= i < j < |programList| ==> programList[i].pid != programList[j].pid
      ensures heaps.Keys == set p | p in programList :: p.pid
      ensures forall i :: 0 <= i < |programList| ==>
              programList[i].pid in heaps
                && HeapIs(programList[i], heaps[programList[i].pid], pager.contents, pager.pageSize)
    {
    }

    lemma HeapOfIs(pid: nat)
      ensures HeapOf(pid) == if pid in heaps then heaps[pid] else Heap([], [])
      ensures pid in heaps ==> heaps[pid := heaps[pid]] == heaps
    {
    }

    /** A program that is not in the list yet is added to it. */
    method Register(pid: nat) returns (i: nat)
      requires Valid()
      modifies `programList, `heaps
      ensures Valid() && i < |programList| && programList[i].pid == pid
      ensures heaps == old(heaps)[pid := old(HeapOf(pid))]
      ensures pid in old(heaps) ==> programList == old(programList)
      ensures forall j :: 0 <= j < |programList| ==> programList[j] in old(programList) || fresh(programList[j])
    {
      hide *;
      ValidFacts();
      HeapOfIs(pid);
      var k := SearchProgram(pid);
      if k == -1 {
        var prog := new Program(pid);
        ghost var ps, hs := programList, heaps;
        programList := programList + [prog];
        heaps := heaps[pid := Heap([], [])];
        Registered(ps, hs, prog);
        i := |programList| - 1;
      } else {
        i := k;
      }
    }

    /** `busca_segmento`: a segment counts its limit as its own. */
    method FindSegment(prog: Program, addr: nat) returns (i: int)
      ensures i == -1 ==> forall j :: 0 <= j < |prog.segmentTable| ==> addr > prog.segmentTable[j].limit
      ensures i != -1 ==> 0 <= i < |prog.segmentTable| && addr <= prog.segmentTable[i].limit
    {
      i := 0;
      while i < |prog.segmentTable|
        invariant 0 <= i <= |prog.segmentTable|
        invariant forall j :: 0 <= j < i ==> addr > prog.segmentTable[j].limit
      {
        if prog.segmentTable[i].limit >= addr {
          return;
        }
        i := i + 1;
      }
      i := -1;
    }

    // ---- memory_malloc ----

    lemma AfterLoads(k: nat, seg: Segment, mem: seq<byte>)
      requires Listed() && k < |programList| && HeapsBut(-1, pager.contents)
      requires Ready(pager, seg, mem)
      requires Start(pager.bitmap.Length + pager.bitmapSwap.Length, pager.pageSize) < INT
      ensures Valid()
    {
    }

    lemma PagerReady()
      requires Valid()
      ensures PagerOk() && pager.Sound() && pager.HasRoom()
      ensures Start(pager.bitmap.Length + pager.bitmapSwap.Length, pager.pageSize) < INT
    {
    }

    lemma StillValid()
      requires PagerOk() && Listed() && HeapsBut(-1, pager.contents)
      ensures Valid()
    {
    }

    lemma HeapsAre()
      requires Valid()
      ensures HeapsBut(-1, pager.contents)
    {
    }

    /** `segment_with_free_space`: the search of each segment of the program, in order. */
    method SegmentWithSpace(k: nat, need: nat) returns (s: int)
      requires Valid() && k < |programList|
      modifies pager, pager.frames, pager.bitmap, pager.swapFile, pager.bitmapSwap, pager.pages
      ensures pager.Modified() == old(pager.Modified())
      ensures s == -1 || 0 <= s < |programList[k].segmentTable|
      ensures s != -1 <==> FirstFit(HeapOf(programList[k].pid).blocks, 0, need) < |HeapOf(programList[k].pid).blocks|
      ensures Valid() && pager.pages == old(pager.pages) && pager.segments == old(pager.segments)
    {
      hide *;
      ProgramFacts(k);
      HeapOfIs(programList[k].pid);
      var prog := programList[k];
      ghost var h := heaps[prog.pid];
      FirstFitNone(need);
      s := 0;
      while s < |prog.segmentTable|
        invariant 0 <= s <= |prog.segmentTable|
        invariant s == |prog.segmentTable| ==> FirstFit(h.blocks, 0, need) == |h.blocks|
        invariant Valid() && pager.pages == old(pager.pages) && pager.segments == old(pager.segments)
        invariant pager.Modified() == old(pager.Modified())
      {
        ProgramFacts(k);
        var found := FitIn(k, prog.segmentTable[s], need, h);
        if found {
          return;
        }
        s := s + 1;
      }
      s := -1;
    }

    /** A round of the search: the header of the block that is found is read again. */
    method FitIn(k: nat, seg: Segment, need: nat, ghost h: Heap) returns (found: bool)
      requires Valid() && k < |programList| && programList[k].segmentTable == [seg]
      requires programList[k].pid in heaps && h == heaps[programList[k].pid]
      modifies pager, pager.frames, pager.bitmap, pager.swapFile, pager.bitmapSwap, pager.pages
      ensures pager.Modified() == old(pager.Modified())
      ensures found <==> FirstFit(h.blocks, 0, need) < |h.blocks|
      ensures found || FirstFit(h.blocks, 0, need) == |h.blocks|
      ensures Valid() && pager.pages == old(pager.pages) && pager.segments == old(pager.segments)
    {
      hide *;
      ProgramFacts(k);
      HeapsAre();
      FitIs(h.blocks, |h.mem|, need);
      var at := FindFit(pager, seg, 0, need, h.mem, h.blocks, 0);
      WalkableIs(pager, seg, h.mem, h.blocks);
      AfterLoads(k, seg, h.mem);
      found := at != -1;
      if found {
        ProgramFacts(k);
        HeapsAre();
        var _ := LoadHeader(pager, seg, at, h.mem);
        AfterLoads(k, seg, h.mem);
      }
    }

    /** The branch of `memory_malloc` that found space in a segment. */
    method Take(k: nat, s: nat, size: nat) returns (r: nat)
      requires Valid() && k < |programList| && s < |programList[k].segmentTable|
      requires programList[k].pid in heaps && Fits(heaps[programList[k].pid].blocks, size)
      modifies pager, pager.frames, pager.bitmap, pager.swapFile, pager.bitmapSwap, pager.pages,
        {programList[k]}`usingMemory, `heaps
      ensures pager.Modified() == old(pager.Modified())
      ensures Valid() && pager.pages == old(pager.pages) && pager.segments == old(pager.segments)
      ensures var pid := programList[k].pid; var h := old(heaps[pid]);
              && pid in heaps && r == Allocate(h.blocks, size).0
              && heaps == old(heaps)[pid := Heap(Allocate(h.blocks, size).1, heaps[pid].mem)]
              && PayloadsKept(h.mem, heaps[pid].mem, h.blocks)
    {
      hide *;
      ProgramFacts(k);
      OtherFacts(k);
      var prog := programList[k];
      ghost var c, h := pager.contents, heaps[prog.pid];
      var seg := prog.segmentTable[s];
      WalkableIs(pager, seg, h.mem, h.blocks);
      FitIs(h.blocks, |h.mem|, size + META);
      AllocateIs(h.blocks, |h.mem|, size);
      var at := FindFit(pager, seg, 0, size + META, h.mem, h.blocks, 0);
      ghost var m := AllocateAt(pager, seg, at, size, h.mem, h.blocks, FirstFit(h.blocks, 0, size + META));
      r := at + META;
      WalkableIs(pager, seg, m, Split(h.blocks, FirstFit(h.blocks, 0, size + META), size));
      Commit(k, prog, prog.usingMemory + size, c, Heap(Split(h.blocks, FirstFit(h.blocks, 0, size + META), size), m));
    }

    lemma TableFits(seg: Segment)
      requires pager.Sound() && seg in pager.segments
      ensures |seg.pageTable| <= |pager.pages|
    {
      IsMapped(pager, seg);
      SizeOf(seg.pageTable, pager.pages);
    }

    method LengthenSegment(seg: Segment, size: nat, ghost h: Heap) returns (ghost m: seq<byte>)
      requires Walkable(pager, seg, h.mem, h.blocks) && HeapInv(h.blocks, |h.mem|) && pager.pageSize > 0
      requires Start(pager.bitmap.Length + pager.bitmapSwap.Length, pager.pageSize) < INT
      requires |pager.pages| + Growth(h.blocks, size, pager.pageSize) < pager.bitmap.Length + pager.bitmapSwap.Length
      requires !Fits(h.blocks, size) && Counts(h.blocks, size, pager.pageSize)
      modifies pager, pager.frames, pager.bitmap, pager.swapFile, pager.bitmapSwap, pager.pages, seg
      ensures pager.Modified() == old(pager.Modified())
      ensures var n := Growth(h.blocks, size, pager.pageSize);
              && |pager.pages| == old(|pager.pages|) + n && h.blocks != []
              && var g := Grow(h.blocks, Start(n, pager.pageSize));
                 Walkable(pager, seg, m, g) && HeapInv(g, |m|) && Used(g) == Used(h.blocks)
      ensures PayloadsKept(h.mem, m, h.blocks) && OthersKept(old(pager.contents), pager.contents, seg.pageTable)
      ensures pager.segments == old(pager.segments) && old(pager.pages) <= pager.pages
              && fresh(pager.pages - old(pager.pages))
    {
      hide *;
      ghost var n := Growth(h.blocks, size, pager.pageSize);
      WalkableIs(pager, seg, h.mem, h.blocks);
      ReadyFacts(pager, seg, h.mem);
      HeapInvIs(h.blocks, |h.mem|);
      LastLacks(h.blocks, size);
      IntIs();
      TableFits(seg);
      StartDiff(|seg.pageTable|, n, pager.pageSize);
      StartMono(|seg.pageTable| + n, pager.bitmap.Length + pager.bitmapSwap.Length, pager.pageSize);
      m := GrowHeap(pager, seg, size, h.mem, h.blocks);
      ghost var g := Grow(h.blocks, Start(n, pager.pageSize));
      WalkableIs(pager, seg, m, g);
      GrowKeeps(h.blocks, |h.mem|, Start(n, pager.pageSize));
      TiledLimit(m, g, |h.mem| + Start(n, pager.pageSize));
    }

    /** The branch of `memory_malloc` that lengthens the program's segment. */
    method Lengthen(k: nat, prog: Program, size: nat, ghost h: Heap)
      requires Valid() && k < |programList| && programList[k] == prog && prog.segmentTable != []
      requires prog.pid in heaps && heaps[prog.pid] == h && pager.pageSize > 0
               && Growth(h.blocks, size, pager.pageSize) < Room()
      requires !Fits(h.blocks, size) && Counts(h.blocks, size, pager.pageSize)
      modifies pager, pager.frames, pager.bitmap, pager.swapFile, pager.bitmapSwap, pager.pages, prog.segmentTable,
        prog`usingMemory, `heaps
      ensures pager.Modified() == old(pager.Modified())
      ensures Valid() && old(pager.pages) <= pager.pages && fresh(pager.pages - old(pager.pages))
              && pager.segments == old(pager.segments)
      ensures var n := Growth(h.blocks, size, pager.pageSize);
              && Room() == old(Room()) - n && prog.pid in heaps && h.blocks != []
              && heaps == old(heaps)[prog.pid := Heap(Grow(h.blocks, Start(n, pager.pageSize)), heaps[prog.pid].mem)]
              && PayloadsKept(h.mem, heaps[prog.pid].mem, h.blocks)
    {
      hide *;
      ProgramFacts(k);
      OtherFacts(k);
      var seg := prog.segmentTable[0];
      ghost var c := pager.contents;
      pager.SoundFacts();
      pager.ListedFacts();
      SegmentAt(k, seg);
      RoomIs();
      ghost var g := Grow(h.blocks, Start(Growth(h.blocks, size, pager.pageSize), pager.pageSize));
      ghost var m := LengthenSegment(seg, size, h);
      Commit(k, prog, prog.usingMemory, c, Heap(g, m));
      PagerReady();
      RoomIs();
    }

    /** `lista_de_segmentos`. */
    method ListSegments() returns (ss: seq<Segment>)
      ensures ss == SegmentsOf(programList)
    {
      ss := [];
      ghost var ts := SegmentTables(programList);
      for i := 0 to |programList|
        invariant ss == Concat(ts[..i])
      {
        assert ts[..i + 1][..i] == ts[..i];
        ss := ss + programList[i].segmentTable;
      }
      assert ts[..|programList|] == ts;
    }

    lemma SegmentAdded(k: nat, ts: seq<seq<Segment>>, ss: seq<Segment>, seg: Segment) returns (at: nat)
      requires k < |programList| && |ts| == |programList| && ss == Concat(ts)
      requires forall i :: 0 <= i < |programList| ==>
               programList[i].segmentTable == if i == k then ts[k] + [seg] else ts[i]
      ensures at <= |ss| && SegmentsOf(programList) == ss[..at] + [seg] + ss[at..]
    {
      at := ConcatAppend(ts, k, seg);
      assert SegmentTables(programList) == ts[k := ts[k] + [seg]];
    }

    lemma TablesIs()
      ensures SegmentsOf(programList) == Concat(SegmentTables(programList))
              && |SegmentTables(programList)| == |programList|
      ensures forall i :: 0 <= i < |programList| ==> SegmentTables(programList)[i] == programList[i].segmentTable
    {
    }

    /** `segmentoNuevo` joins the program's table, still without pages. */
    method NewSegment(k: nat, prog: Program) returns (seg: Segment)
      requires PagerOk() && Listed() && k < |programList| && programList[k] == prog
      requires forall i, j :: 0 <= i < j < |programList| ==> programList[i] != programList[j]
      modifies pager`segments, prog`segmentTable
      ensures pager.Modified() == old(pager.Modified())
      ensures PagerOk() && Listed() && fresh(seg) && seg.limit == 0 && seg in pager.segments && Ready(pager, seg, [])
      ensures prog.segmentTable == old(prog.segmentTable) + [seg]
      ensures Start(pager.bitmap.Length + pager.bitmapSwap.Length, pager.pageSize) < INT && pager.HasRoom()
      ensures forall i :: 0 <= i < |programList| && i != k ==> seg !in programList[i].segmentTable
      ensures forall i :: 0 <= i < |pager.segments| ==>
              pager.segments[i] in old(pager.segments) || fresh(pager.segments[i])
    {
      hide *;
      PagerIs();
      ListedIs();
      TablesIs();
      ghost var ts := SegmentTables(programList);
      seg := new Segment();
      assert seg !in pager.segments;
      prog.segmentTable := prog.segmentTable + [seg];
      TellPager(k, seg, ts);
      PagerIs();
      pager.SoundFacts();
      pager.ListedFacts();
      SegmentAt(k, seg);
      EmptyReady(seg);
      PagerIs();
    }

    /** The pager is told of the segments that there are now. */
    method TellPager(k: nat, seg: Segment, ghost ts: seq<seq<Segment>>)
      requires PagerOk() && k < |programList| == |ts| && pager.segments == Concat(ts)
      requires seg !in pager.segments && seg.pageTable == []
      requires forall i, j :: 0 <= i < j < |programList| ==> programList[i].pid != programList[j].pid
      requires heaps.Keys == set p | p in programList :: p.pid
      requires forall i :: 0 <= i < |programList| ==>
               programList[i].segmentTable == if i == k then ts[k] + [seg] else ts[i]
      modifies pager`segments
      ensures pager.Modified() == old(pager.Modified())
      ensures PagerOk() && Listed() && seg in pager.segments
      ensures forall i :: 0 <= i < |pager.segments| ==>
              pager.segments[i] in old(pager.segments) || pager.segments[i] == seg
    {
      hide *;
      PagerIs();
      ghost var ss := pager.segments;
      var all := ListSegments();
      ghost var at := SegmentAdded(k, ts, ss, seg);
      assert all[at] == seg;
      pager.AddSegment(all, seg, at);
      StillListed(programList, heaps);
      PagerIs();
    }

    lemma DistinctPrograms()
      requires Listed()
      ensures forall i, j :: 0 <= i < j < |programList| ==> programList[i] != programList[j]
    {
    }

    lemma PagerIs()
      ensures PagerOk() <==>
                && pager.Sound() && pager.HasRoom()
                && Start(pager.bitmap.Length + pager.bitmapSwap.Length, pager.pageSize) < INT
    {
    }

    lemma EmptyReady(seg: Segment)
      requires pager.Sound() && pager.HasRoom() && seg in pager.segments && seg.pageTable == []
      ensures Ready(pager, seg, [])
    {
      StillReady(pager, seg, []);
    }

    method FillSegment(seg: Segment, size: nat) returns (ghost m: seq<byte>)
      requires Ready(pager, seg, []) && seg.limit == 0 && pager.pageSize > 0
      requires Start(pager.bitmap.Length + pager.bitmapSwap.Length, pager.pageSize) < INT
      requires |pager.pages| + Growth([], size, pager.pageSize) < pager.bitmap.Length + pager.bitmapSwap.Length
      modifies pager, pager.frames, pager.bitmap, pager.swapFile, pager.bitmapSwap, pager.pages, seg
      ensures pager.Modified() == old(pager.Modified())
      ensures var n := Growth([], size, pager.pageSize);
              && |pager.pages| == old(|pager.pages|) + n && Start(n, pager.pageSize) >= META
              && var g := Grow([], Start(n, pager.pageSize));
                 Walkable(pager, seg, m, g) && HeapInv(g, |m|) && Used(g) == Used([])
      ensures OthersKept(old(pager.contents), pager.contents, seg.pageTable)
      ensures pager.segments == old(pager.segments) && old(pager.pages) <= pager.pages
              && fresh(pager.pages - old(pager.pages))
    {
      hide *;
      ghost var n := Growth([], size, pager.pageSize);
      StartMono(n, pager.bitmap.Length + pager.bitmapSwap.Length, pager.pageSize);
      IntIs();
      m := FirstHeap(pager, seg, size);
      ghost var g := Grow([], Start(n, pager.pageSize));
      WalkableIs(pager, seg, m, g);
      GrowKeeps([], 0, Start(n, pager.pageSize));
      TiledLimit(m, g, Start(n, pager.pageSize));
    }

    /** The last branch of `memory_malloc`: a program without segments gets one. */
    method FirstSegment(k: nat, prog: Program, size: nat)
      requires Valid() && k < |programList| && programList[k] == prog && prog.segmentTable == [] && prog.pid in heaps
      requires pager.pageSize > 0 && Growth([], size, pager.pageSize) < Room()
      modifies pager, pager.frames, pager.bitmap, pager.swapFile, pager.bitmapSwap, pager.pages, prog`segmentTable,
        prog`usingMemory, `heaps
      ensures pager.Modified() == old(pager.Modified())
      ensures Valid() && old(pager.pages) <= pager.pages && fresh(pager.pages - old(pager.pages))
      ensures forall i :: 0 <= i < |pager.segments| ==>
              pager.segments[i] in old(pager.segments) || fresh(pager.segments[i])
      ensures var bytes := Start(Growth([], size, pager.pageSize), pager.pageSize);
              && Room() == old(Room()) - Growth([], size, pager.pageSize)
              && prog.pid in heaps && old(heaps[prog.pid]) == Heap([], []) && bytes >= META
              && heaps == old(heaps)[prog.pid := Heap(Grow([], bytes), heaps[prog.pid].mem)]
    {
      hide *;
      ProgramFacts(k);
      OtherFacts(k);
      DistinctPrograms();
      ghost var c, n := pager.contents, Growth([], size, pager.pageSize);
      RoomIs();
      var seg := NewSegment(k, prog);
      ghost var m := FillSegment(seg, size);
      Commit(k, prog, prog.usingMemory, c, Heap(Grow([], Start(n, pager.pageSize)), m));
      PagerReady();
      RoomIs();
    }

    /** What the bitmaps count as free is what the pages leave. */
    lemma RoomCounted()
      requires PagerOk()
      ensures pager.HasRoom()
      ensures CountTrue(pager.bitmap[..]) + CountTrue(pager.bitmapSwap[..]) == Room()
    {
      pager.Snapshot().Conservation(pager.frameOwner, pager.slotOwner);
      pager.RoomIs();
    }

    /** `number_of_free_frames`. */
    method CountRoom() returns (n: nat)
      requires Valid()
      ensures Valid() && pager.HasRoom() && n == Room()
    {
      hide *;
      ValidFacts();
      RoomCounted();
      var free := pager.CountFree(pager.bitmap);
      var freeSwap := pager.CountFree(pager.bitmapSwap);
      n := free + freeSwap;
      AllHeaps();
    }

    /** `memory_malloc`: the result, the block list and the pages added are those of
        `HeapSpec.Malloc`, no byte of a live payload changes, and no other program's heap does.
        It calls itself at most once, since after growing the search succeeds. */
    method MemoryMalloc(size: int, pid: nat, ghost retried: bool) returns (r: nat)
      requires Valid() && pager.pageSize > 0
      requires -INT <= size < INT && Affordable(HeapOf(pid).blocks, size, Room(), pager.pageSize)
      requires retried && size > 0 ==> Fits(HeapOf(pid).blocks, size)
      modifies this, pager, pager.frames, pager.bitmap, pager.swapFile, pager.bitmapSwap, pager.pages, programList,
        pager.segments
      ensures pager.Modified() == old(pager.Modified())
      ensures Valid()
      ensures old(pager.pages) <= pager.pages && fresh(pager.pages - old(pager.pages))
      ensures forall i :: 0 <= i < |programList| ==> programList[i] in old(programList) || fresh(programList[i])
      ensures forall i :: 0 <= i < |pager.segments| ==>
              pager.segments[i] in old(pager.segments) || fresh(pager.segments[i])
      ensures var o := Malloc(old(HeapOf(pid)).blocks, size, old(Room()), pager.pageSize);
              && r == o.result && Room() == old(Room()) - o.pages
              && if size <= 0 || !CapacityOk(size, old(Room()), pager.pageSize) then heaps == old(heaps)
                 else pid in heaps && heaps == old(heaps)[pid := Heap(o.blocks, heaps[pid].mem)]
      ensures PayloadsKept(old(HeapOf(pid)).mem, HeapOf(pid).mem, old(HeapOf(pid)).blocks)
      // it fails exactly when this is more than all that is free, or more than the growth left
      ensures var b, free, left := old(HeapOf(pid)).blocks, old(Room()) * pager.pageSize, Room() * pager.pageSize;
              r == 0xFFFF_FFFF <==>
                && size > 0
                && (size + 5 > free || (size + 5 > left && forall x :: x in b && x.free ==> x.size < size + 5))
      // and takes the lowest place, with as few pages as will do
      ensures size <= 0 ==> r == 0
      ensures size > 0 && r != 0xFFFF_FFFF ==> TakenAt(old(HeapOf(pid)).blocks, size + 5, r - 5)
      ensures var b, pages := old(HeapOf(pid)).blocks, old(Room()) - Room();
              if size > 0 && size + 5 <= old(Room()) * pager.pageSize && !HasFit(b, size + 5)
              then pages > 0 && FewestPages(b, size, pages, pager.pageSize)
              else pages == 0
      decreases if retried then 0 else 1, 1
    {
      hide *;
      PagerReady();
      HeapOfIs(pid);
      RoomCounted();
      ghost var h, room, ps := HeapOf(pid), Room(), pager.pageSize;
      HeapGood(pid);
      MallocIs(h.blocks, size, room, ps);
      AffordableIs(h.blocks, size, room, ps);
      PayloadsSame(h.mem, h.blocks);
      if size <= 0 {
        Exactly(h, size, room, ps, [], 0, room);
        return 0;
      }
      var free := CountRoom();
      if !CapacityOk(size, free, pager.pageSize) {
        Exactly(h, size, room, ps, [], FAILED, room);
        return FAILED;
      }
      var k := Register(pid);
      HeapOfIs(pid);
      r := MallocIn(k, size, pid, retried);
      HeapOfIs(pid);
      Twice(old(heaps), pid, h, heaps[pid]);
      HeapGood(pid);
      PagerReady();
      Exactly(h, size, room, ps, heaps[pid].mem, r, Room());
    }

    lemma HeapGood(pid: nat)
      requires Valid()
      ensures var h := HeapOf(pid);
              && (if h.blocks == [] then h.mem == [] else HeapInv(h.blocks, |h.mem|))
              && |h.mem| < WORD
    {
      ValidFacts();
      if pid in heaps {
        var i :| 0 <= i < |programList| && programList[i].pid == pid;
        ProgramFacts(i);
      }
    }

    /** What `HeapSpec.MallocExactly` says of a request that returned `r`. */
    lemma Exactly(h: Heap, size: int, room: nat, ps: nat, mem: seq<byte>, r: nat, left: int)
      requires ps > 0 && if h.blocks == [] then h.mem == [] else HeapInv(h.blocks, |h.mem|)
      requires var o := Malloc(h.blocks, size, room, ps);
               && r == o.result && left == room - o.pages
               && (o.ok ==> (o.blocks != [] ==> HeapInv(o.blocks, |mem|)) && |mem| < WORD)
      ensures r == 0xFFFF_FFFF <==>
                && size > 0
                && (size + 5 > room * ps ||
                    (size + 5 > left * ps && forall x :: x in h.blocks && x.free ==> x.size < size + 5))
      ensures size <= 0 ==> r == 0
      ensures size > 0 && r != 0xFFFF_FFFF ==> TakenAt(h.blocks, size + 5, r - 5)
      ensures if size > 0 && size + 5 <= room * ps && !HasFit(h.blocks, size + 5)
              then room - left > 0 && FewestPages(h.blocks, size, room - left, ps)
              else room == left
    {
      hide Malloc, HeapInv, TakenAt;
      OkBlocks(h.blocks, size, room, ps);
      MallocExactly(h.blocks, |h.mem|, size, room, ps, |mem|);
    }

    lemma Codes()
      ensures NO_SEGMENT == -3 && OUT_OF_SEGMENT == -4
    {
    }

    lemma Twice(hs: map<nat, Heap>, pid: nat, g: Heap, h: Heap)
      ensures hs[pid := g][pid := h] == hs[pid := h]
    {
    }

    /** `sePuedeAgrandar` on the only segment of a program: nothing comes after it. */
    method CanLengthen(prog: Program, seg: Segment) returns (ok: bool)
      requires prog.segmentTable == [seg]
      ensures ok
    {
      var next := FindSegment(prog, seg.limit + 1);
      ok := next == -1;
    }

    /** `memory_malloc` from the search for space on. */
    method MallocIn(k: nat, size: nat, pid: nat, ghost retried: bool) returns (r: nat)
      requires Valid() && k < |programList| && programList[k].pid == pid && pid in heaps
      requires 0 < size < INT && pager.pageSize > 0 && CapacityOk(size, Room(), pager.pageSize)
      requires Affordable(heaps[pid].blocks, size, Room(), pager.pageSize)
      requires retried ==> Fits(heaps[pid].blocks, size)
      modifies this, pager, pager.frames, pager.bitmap, pager.swapFile, pager.bitmapSwap, pager.pages, programList,
        pager.segments
      ensures pager.Modified() == old(pager.Modified())
      ensures Valid()
      ensures old(pager.pages) <= pager.pages && fresh(pager.pages - old(pager.pages))
      ensures forall i :: 0 <= i < |programList| ==> programList[i] in old(programList) || fresh(programList[i])
      ensures forall i :: 0 <= i < |pager.segments| ==>
              pager.segments[i] in old(pager.segments) || fresh(pager.segments[i])
      ensures var o := Malloc(old(heaps[pid]).blocks, size, old(Room()), pager.pageSize);
              && r == o.result && Room() == old(Room()) - o.pages
              && pid in heaps && heaps == old(heaps)[pid := Heap(o.blocks, heaps[pid].mem)]
      ensures PayloadsKept(old(heaps[pid]).mem, heaps[pid].mem, old(heaps[pid]).blocks)
      decreases if retried then 0 else 1, 0
    {
      hide *;
      ProgramFacts(k);
      HeapOfIs(pid);
      RoomIs();
      ghost var h, hs := heaps[pid], heaps;
      MallocIs(h.blocks, size, Room(), pager.pageSize);
      AffordableIs(h.blocks, size, Room(), pager.pageSize);
      var prog := programList[k];
      var s := SegmentWithSpace(k, size + META);
      if s != -1 {
        r := TakeFound(k, size, pid);
      } else {
        r := GrowAndRetry(k, size, pid);
      }
    }

    /** The first branch of `memory_malloc`, which searches once more. */
    method TakeFound(k: nat, size: nat, pid: nat) returns (r: nat)
      requires Valid() && k < |programList| && programList[k].pid == pid && pid in heaps
      requires size > 0 && pager.pageSize > 0 && CapacityOk(size, Room(), pager.pageSize)
               && Fits(heaps[pid].blocks, size)
      modifies pager, pager.frames, pager.bitmap, pager.swapFile, pager.bitmapSwap, pager.pages, programList, `heaps
      ensures pager.Modified() == old(pager.Modified())
      ensures Valid() && pager.pages == old(pager.pages) && pager.segments == old(pager.segments)
      ensures var o := Malloc(old(heaps[pid]).blocks, size, old(Room()), pager.pageSize);
              && r == o.result && Room() == old(Room()) - o.pages
              && pid in heaps && heaps == old(heaps)[pid := Heap(o.blocks, heaps[pid].mem)]
      ensures PayloadsKept(old(heaps[pid]).mem, heaps[pid].mem, old(heaps[pid]).blocks)
    {
      hide *;
      PagerReady();
      HeapOfIs(pid);
      RoomIs();
      ghost var h := heaps[pid];
      MallocIs(h.blocks, size, Room(), pager.pageSize);
      var s := SegmentWithSpace(k, size + META);
      HeapOfIs(pid);
      r := Take(k, s, size);
      PagerReady();
      RoomIs();
    }

    method GrowAndRetry(k: nat, size: nat, pid: nat) returns (r: nat)
      requires Valid() && k < |programList| && programList[k].pid == pid && pid in heaps
      requires 0 < size < INT && pager.pageSize > 0 && CapacityOk(size, Room(), pager.pageSize)
      requires !Fits(heaps[pid].blocks, size) && Growth(heaps[pid].blocks, size, pager.pageSize) < Room()
      requires Counts(heaps[pid].blocks, size, pager.pageSize)
      modifies this, pager, pager.frames, pager.bitmap, pager.swapFile, pager.bitmapSwap, pager.pages, programList,
        pager.segments
      ensures pager.Modified() == old(pager.Modified())
      ensures Valid()
      ensures old(pager.pages) <= pager.pages && fresh(pager.pages - old(pager.pages))
      ensures forall i :: 0 <= i < |programList| ==> programList[i] in old(programList) || fresh(programList[i])
      ensures forall i :: 0 <= i < |pager.segments| ==>
              pager.segments[i] in old(pager.segments) || fresh(pager.segments[i])
      ensures var o := Malloc(old(heaps[pid]).blocks, size, old(Room()), pager.pageSize);
              && r == o.result && Room() == old(Room()) - o.pages
              && pid in heaps && heaps == old(heaps)[pid := Heap(o.blocks, heaps[pid].mem)]
      ensures PayloadsKept(old(heaps[pid]).mem, heaps[pid].mem, old(heaps[pid]).blocks)
      decreases 0, 2
    {
      hide *;
      PagerReady();
      ghost var h, hs, room, ps := heaps[pid], heaps, Room(), pager.pageSize;
      RetryFits(h.blocks, size, room, ps);
      MakeRoom(k, size, pid);
      ghost var g, n := heaps[pid], Growth(h.blocks, size, ps);
      HeapOfIs(pid);
      r := MemoryMalloc(size, pid, true);
      PagerReady();
      HeapOfIs(pid);
      GrowPayloads(h.mem, g.mem, heaps[pid].mem, h.blocks, Start(n, ps));
      RetrySettles(h.blocks, size, room, ps, hs, pid, g, heaps, r, Room());
    }

    lemma RetryFits(b: seq<Block>, size: nat, room: nat, ps: nat)
      requires size > 0 && ps > 0 && CapacityOk(size, room, ps) && !Fits(b, size)
      ensures var n := Growth(b, size, ps);
              && (b == [] ==> Start(n, ps) >= META)
              && Fits(Grow(b, Start(n, ps)), size) && Affordable(Grow(b, Start(n, ps)), size, room - n, ps)
    {
      RetryOutcome(b, size, room, ps);
    }

    /** What the retry did is what the whole request does. */
    lemma RetrySettles(b: seq<Block>, size: nat, room: nat, ps: nat, hs: map<nat, Heap>, pid: nat, g: Heap,
                       now: map<nat, Heap>, r: nat, left: int)
      requires size > 0 && ps > 0 && CapacityOk(size, room, ps) && !Fits(b, size) && pid in now
      requires (b == [] ==> Start(Growth(b, size, ps), ps) >= META)
               && g.blocks == Grow(b, Start(Growth(b, size, ps), ps))
      requires var o := Malloc(g.blocks, size, room - Growth(b, size, ps), ps);
               && r == o.result && left == room - Growth(b, size, ps) - o.pages
               && if !CapacityOk(size, room - Growth(b, size, ps), ps) then now == hs[pid := g]
                  else now == hs[pid := g][pid := Heap(o.blocks, now[pid].mem)]
      ensures var o := Malloc(b, size, room, ps);
              r == o.result && left == room - o.pages && now == hs[pid := Heap(o.blocks, now[pid].mem)]
    {
      RetryOutcome(b, size, room, ps);
      hide *;
    }

    /** The two branches of `memory_malloc` that add pages. */
    method MakeRoom(k: nat, size: nat, pid: nat)
      requires Valid() && k < |programList| && programList[k].pid == pid && pid in heaps
      requires pager.pageSize > 0 && Growth(heaps[pid].blocks, size, pager.pageSize) < Room()
      requires !Fits(heaps[pid].blocks, size) && Counts(heaps[pid].blocks, size, pager.pageSize)
      modifies this, pager, pager.frames, pager.bitmap, pager.swapFile, pager.bitmapSwap, pager.pages, programList,
        pager.segments
      ensures pager.Modified() == old(pager.Modified())
      ensures Valid() && pager.HasRoom() && programList == old(programList)
      ensures old(pager.pages) <= pager.pages && fresh(pager.pages - old(pager.pages))
      ensures forall i :: 0 <= i < |pager.segments| ==>
              pager.segments[i] in old(pager.segments) || fresh(pager.segments[i])
      ensures var h := old(heaps[pid]);
              var n := Growth(h.blocks, size, pager.pageSize);
              && Room() == old(Room()) - n && pid in heaps
              && (h.blocks == [] ==> Start(n, pager.pageSize) >= META)
              && (h.blocks != [] ==> h.blocks[|h.blocks| - 1].free)
              && heaps == old(heaps)[pid := Heap(Grow(h.blocks, Start(n, pager.pageSize)), heaps[pid].mem)]
              && PayloadsKept(h.mem, heaps[pid].mem, h.blocks)
    {
      hide *;
      ProgramFacts(k);
      var prog := programList[k];
      ghost var h := heaps[pid];
      if |prog.segmentTable| > 0 {
        HeapInvIs(h.blocks, |h.mem|);
        HeapsAre();
        var ok := CanLengthen(prog, prog.segmentTable[0]);
        StillValid();
        Lengthen(k, prog, size, h);
      } else {
        FirstSegment(k, prog, size);
        PayloadsNone(heaps[pid].mem);
      }
      PagerReady();
    }

    // ---- memory_free ----

    /** `memory_free` of a live address, with the guarded `proxima_metadata_libre`: the block is
        released and no byte of another live payload changes. */
    method MemoryFree(address: nat, pid: nat) returns (r: nat)
      requires Valid() && pid in heaps && IndexOf(heaps[pid].blocks, address) < |heaps[pid].blocks|
      modifies pager, pager.frames, pager.bitmap, pager.swapFile, pager.bitmapSwap, pager.pages, programList, `heaps
      ensures pager.Modified() == old(pager.Modified())
      ensures Valid() && r == 0 && pager.pages == old(pager.pages) && pager.segments == old(pager.segments)
              && programList == old(programList)
      ensures var h := old(heaps[pid]); var k := IndexOf(h.blocks, address);
              && pid in heaps && heaps == old(heaps)[pid := Heap(Release(h.blocks, k, true), heaps[pid].mem)]
              && PayloadsKept(h.mem, heaps[pid].mem, Marked(h.blocks, k))
    {
      hide *;
      var i := SearchProgram(pid);
      ProgramFacts(i);
      OtherFacts(i);
      var prog := programList[i];
      ghost var c, h := pager.contents, heaps[pid];
      ghost var k := IndexOf(h.blocks, address);
      LiveAt(h.blocks, |h.mem|, address);
      var s := FindSegment(prog, address);
      var seg := prog.segmentTable[s];
      WalkableIs(pager, seg, h.mem, h.blocks);
      var size;
      ghost var m;
      size, m := FreeAt(pager, seg, address - META, true, h.mem, h.blocks, k);
      WalkableIs(pager, seg, m, Release(h.blocks, k, true));
      ReleasedIs(h.blocks, |h.mem|, k);
      Commit(i, prog, prog.usingMemory - size, c, Heap(Release(h.blocks, k, true), m));
      r := 0;
    }

    // ---- memory_cpy ----

    /** `memory_cpy` to the start of a block: -3 when no segment holds `dst`, -1 when the block
        is free or too small; otherwise exactly the bytes at `dst` change. */
    method MemoryCpy(dst: nat, src: seq<byte>, pid: nat, ghost k: nat) returns (r: int)
      requires Valid()
      requires var h := HeapOf(pid);
               h.blocks != [] && dst <= |h.mem| ==>
                 k < |h.blocks| && h.blocks[k].Payload() == dst
                 && dst + |src| <= |h.mem|
      modifies this, pager, pager.frames, pager.bitmap, pager.swapFile, pager.bitmapSwap, pager.pages, programList
      ensures Valid() && pager.pages == old(pager.pages) && pager.segments == old(pager.segments)
      ensures forall i :: 0 <= i < |programList| ==> programList[i] in old(programList) || fresh(programList[i])
      ensures var h := old(HeapOf(pid));
              if h.blocks == [] || dst > |h.mem| then r == -3 && heaps == old(heaps)[pid := h]
              else if h.blocks[k].free || h.blocks[k].size < |src| then r == -1 && heaps == old(heaps)[pid := h]
              else
                && r == dst && dst + |src| <= |h.mem|
                && heaps == old(heaps)[pid := Heap(h.blocks, Splice(h.mem, dst, src))]
      // exactly the pages of those bytes and of the header before them are modified by it
      ensures r < 0 ==> pager.Modified() == old(pager.Modified())
      ensures r >= 0 ==>
                pager.Modified() == old(pager.Modified())
                                    + Touched(old(PageTable(pid)), pager.pageSize, dst - 5, |src| + 5)
    {
      hide *;
      HeapOfIs(pid);
      PageTables();
      ghost var h, hs, table, modified := HeapOf(pid), heaps, PageTable(pid), pager.Modified();
      var i := Register(pid);
      assert pager.Modified() == modified && (pid in hs ==> Table(programList[i]) == table);
      r := CopyTo(i, programList[i], dst, src, k, h);
      Twice(hs, pid, h, heaps[pid]);
    }

    /** `memory_cpy` for a program that is in the list. */
    method CopyTo(i: nat, prog: Program, dst: nat, src: seq<byte>, ghost k: nat, ghost h: Heap) returns (r: int)
      requires Valid() && i < |programList| && programList[i] == prog && prog.pid in heaps && h == heaps[prog.pid]
      requires h.blocks != [] && dst <= |h.mem| ==>
                 k < |h.blocks| && h.blocks[k].Payload() == dst && dst + |src| <= |h.mem|
      modifies pager, pager.frames, pager.bitmap, pager.swapFile, pager.bitmapSwap, pager.pages,
        {prog}`usingMemory, `heaps
      ensures Valid() && pager.pages == old(pager.pages) && pager.segments == old(pager.segments)
      ensures if h.blocks == [] || dst > |h.mem| then r == -3 && heaps == old(heaps)
              else if h.blocks[k].free || h.blocks[k].size < |src| then r == -1 && heaps == old(heaps)[prog.pid := h]
              else
                && r == dst && dst + |src| <= |h.mem|
                && heaps == old(heaps)[prog.pid := Heap(h.blocks, Splice(h.mem, dst, src))]
      ensures pager.Modified() == if r < 0 then old(pager.Modified()) else
                old(pager.Modified()) + Touched(old(Table(prog)), pager.pageSize, dst - 5, |src| + 5)
    {
      hide *;
      Codes();
      ProgramFacts(i);
      HeapsAre();
      var s := FindSegment(prog, dst);
      StillValid();
      if s == -1 {
        return NO_SEGMENT;
      }
      var ok := CopyInto(i, s, dst, src, k);
      r := if ok then dst else -1;
    }

    method CopyInto(i: nat, s: nat, dst: nat, src: seq<byte>, ghost k: nat) returns (ok: bool)
      requires Valid() && i < |programList| && s < |programList[i].segmentTable| && programList[i].pid in heaps
      requires var h := heaps[programList[i].pid];
               k < |h.blocks| && h.blocks[k].Payload() == dst && dst + |src| <= |h.mem|
      modifies pager, pager.frames, pager.bitmap, pager.swapFile, pager.bitmapSwap, pager.pages,
        {programList[i]}`usingMemory, `heaps
      ensures Valid() && pager.pages == old(pager.pages) && pager.segments == old(pager.segments)
      ensures var pid := programList[i].pid; var h := old(heaps[pid]);
              && (ok <==> !h.blocks[k].free && h.blocks[k].size >= |src|)
              && pid in heaps && heaps == old(heaps)[pid := if ok then Heap(h.blocks, Splice(h.mem, dst, src)) else h]
      ensures pager.Modified() == if !ok then old(pager.Modified()) else
                old(pager.Modified()) + Touched(old(Table(programList[i])), pager.pageSize, dst - 5, |src| + 5)
    {
      hide *;
      ProgramFacts(i);
      OtherFacts(i);
      var prog := programList[i];
      var seg := prog.segmentTable[s];
      ghost var c, h := pager.contents, heaps[prog.pid];
      WalkableIs(pager, seg, h.mem, h.blocks);
      TiledStep(h.mem, h.blocks, k);
      EndIs(h.blocks[k]);
      TableIs(prog);
      ok := CopyAt(pager, seg, dst, src, h.mem);
      ghost var m := if ok then Splice(h.mem, dst, src) else h.mem;
      if ok {
        WriteInside(h.mem, h.blocks, k, dst, src);
      }
      WalkableIs(pager, seg, m, h.blocks);
      Commit(i, prog, prog.usingMemory, c, Heap(h.blocks, m));
    }

    // ---- memory_get ----

    /** `memory_get`: -3 when no segment holds `src`, -4 when the segment ends before the last
        byte asked for; otherwise the bytes of the heap, which stays as it is. */
    method MemoryGet(src: nat, n: nat, pid: nat) returns (r: int, data: seq<byte>)
      requires Valid()
      modifies this, pager, pager.frames, pager.bitmap, pager.swapFile, pager.bitmapSwap, pager.pages, programList
      ensures pager.Modified() == old(pager.Modified())
      ensures Valid() && pager.pages == old(pager.pages) && pager.segments == old(pager.segments)
      ensures forall i :: 0 <= i < |programList| ==> programList[i] in old(programList) || fresh(programList[i])
      ensures heaps == old(heaps)[pid := old(HeapOf(pid))]
      ensures var h := old(HeapOf(pid));
              if h.blocks == [] || src > |h.mem| then r == -3
              else if |h.mem| < src + n then r == -4
              else r == 0 && data == h.mem[src..src + n]
    {
      hide *;
      HeapOfIs(pid);
      ghost var h := HeapOf(pid);
      var i := Register(pid);
      r, data := GetFrom(i, programList[i], src, n, h);
    }

    /** `memory_get` for a program that is in the list. */
    method GetFrom(i: nat, prog: Program, src: nat, n: nat, ghost h: Heap) returns (r: int, data: seq<byte>)
      requires Valid() && i < |programList| && programList[i] == prog && prog.pid in heaps && heaps[prog.pid] == h
      modifies pager, pager.frames, pager.bitmap, pager.swapFile, pager.bitmapSwap, pager.pages
      ensures pager.Modified() == old(pager.Modified())
      ensures Valid() && pager.pages == old(pager.pages) && pager.segments == old(pager.segments)
      ensures if h.blocks == [] || src > |h.mem| then r == -3
              else if |h.mem| < src + n then r == -4
              else r == 0 && data == h.mem[src..src + n]
    {
      hide *;
      Codes();
      ProgramFacts(i);
      HeapsAre();
      var s := FindSegment(prog, src);
      data := [];
      if s == -1 {
        StillValid();
        return NO_SEGMENT, [];
      }
      var seg := prog.segmentTable[s];
      WalkableIs(pager, seg, h.mem, h.blocks);
      if seg.limit < src + n {
        StillValid();
        return OUT_OF_SEGMENT, [];
      }
      data := GetAt(pager, seg, src, n, h.mem);
      AfterLoads(i, seg, h.mem);
      r := 0;
    }

    lemma RoomIs()
      requires pager.HasRoom()
      ensures Room() == pager.bitmap.Length + pager.bitmapSwap.Length - |pager.pages|
    {
    }
  }

  lemma {:induction false} SizeOf(u: seq<Page>, s: set<Page>)
    requires Distinct(u) && forall i :: 0 <= i < |u| ==> u[i] in s
    ensures |u| <= |s|
  {
    if u != [] {
      var n := |u| - 1;
      SizeOf(u[..n], s - {u[n]});
    }
  }

  lemma IntIs()
    ensures INT < WORD
  {
  }

  /** What the search saw of the last block. */
  lemma {:induction false} LastLacks(b: seq<Block>, size: nat)
    requires b != [] && b[|b| - 1].free && !Fits(b, size)
    ensures b[|b| - 1].size < size + META
  {
    FirstFitSees(b, 0, size + META);
  }

  lemma {:induction false} FirstFitSees(b: seq<Block>, i: nat, need: nat)
    requires i < |b| && b[|b| - 1].free && FirstFit(b, i, need) >= |b|
    ensures b[|b| - 1].size < need
    decreases |b| - i
  {
    if i + 1 < |b| {
      FirstFitSees(b, i + 1, need);
    }
  }

  lemma HeapInvIs(b: seq<Block>, limit: nat)
    requires HeapInv(b, limit)
    ensures b != [] && b[|b| - 1].free
  {
  }

  lemma TiledLimit(m: seq<byte>, b: seq<Block>, limit: nat)
    requires Tiled(m, b) && HeapInv(b, limit)
    ensures |m| == limit
  {
    TilesOrder(b, 0, limit, |b| - 1);
    TilesOrder(b, 0, |m|, |b| - 1);
  }

  /** After growing, the second call finds space unless its capacity check stops it. */
  lemma RetryOutcome(b: seq<Block>, size: nat, room: nat, ps: nat)
    requires size > 0 && ps > 0 && CapacityOk(size, room, ps) && !Fits(b, size)
    ensures var n := Growth(b, size, ps);
            && (b == [] ==> Start(n, ps) >= META)
            && var g := Grow(b, Start(n, ps));
               && Fits(g, size) && Affordable(g, size, room - n, ps)
               && var o, p := Malloc(b, size, room, ps), Malloc(g, size, room - n, ps);
                  && o.pages == n && p.pages == 0 && o.result == p.result && o.blocks == p.blocks
                  && (CapacityOk(size, room - n, ps) || p.blocks == g)
  {
    var n := Growth(b, size, ps);
    StartIs(n, ps);
    MallocIs(b, size, room, ps);
    MallocIs(Grow(b, Start(n, ps)), size, room - n, ps);
  }

  lemma LiveAt(b: seq<Block>, limit: nat, address: nat)
    requires HeapInv(b, limit) && IndexOf(b, address) < |b|
    ensures var k := IndexOf(b, address);
            !b[k].free && b[k].addr + META == address <= limit
    ensures b != []
  {
    TilesOrder(b, 0, limit, IndexOf(b, address));
  }

  lemma ReleasedIs(b: seq<Block>, limit: nat, k: nat)
    requires HeapInv(b, limit) && k < |b| && !b[k].free
    ensures var c := Release(b, k, true);
            HeapInv(c, limit) && Total(Used(c)) == Total(Used(b)) - b[k].size
  {
    ReleaseKeeps(b, limit, k);
  }

  lemma PayloadsNone(m: seq<byte>)
    ensures PayloadsKept([], m, [])
  {
  }

  lemma GrowPayloads(x: seq<byte>, y: seq<byte>, z: seq<byte>, b: seq<Block>, bytes: nat)
    requires b == [] ==> bytes >= META
    requires b != [] ==> b[|b| - 1].free
    requires PayloadsKept(x, y, b) && PayloadsKept(y, z, Grow(b, bytes))
    ensures PayloadsKept(x, z, b)
  {
    forall j | 0 <= j < |b| && !b[j].free ensures b[j] in Grow(b, bytes) {
      assert Grow(b, bytes)[j] == b[j];
    }
    PayloadsTwice(x, y, z, b, Grow(b, bytes));
  }

  lemma AllocateIs(b: seq<Block>, limit: nat, size: nat)
    requires HeapInv(b, limit) && Fits(b, size)
    ensures var k := FirstFit(b, 0, size + META);
            && k < |b| && size + META <= b[k].size && b[k].free
            && Allocate(b, size) == (b[k].addr + META, Split(b, k, size))
            && HeapInv(Split(b, k, size), limit) && Total(Used(Split(b, k, size))) == Total(Used(b)) + size
  {
    AllocateKeeps(b, limit, size);
  }

  lemma FirstFitNone(need: nat)
    ensures FirstFit([], 0, need) == 0
  {
  }

  lemma FitIs(b: seq<Block>, limit: nat, need: nat)
    requires HeapInv(b, limit)
    ensures b != [] && b[0].addr == 0 && SearchFit(b, 0, need) == FirstFit(b, 0, need) <= |b|
    ensures var f := FirstFit(b, 0, need);
            f < |b| ==> b[f].free && b[f].size >= need && b[f].addr + META <= limit
  {
    SearchIsFirstFit(b, 0, need);
    if FirstFit(b, 0, need) < |b| {
      TilesOrder(b, 0, limit, FirstFit(b, 0, need));
    }
  }

  lemma FramesFit(memorySize: nat, swapSize: nat, ps: nat)
    requires 0 < ps <= memorySize
    ensures Start(memorySize / ps + swapSize / ps, ps) <= memorySize + swapSize
    ensures memorySize / ps > 0
  {
    StartDiff(memorySize / ps, swapSize / ps, ps);
  }

  lemma {:induction false} ConcatApart<T>(ts: seq<seq<T>>, i: nat, l: nat, k: nat, j: nat)
    requires i < |ts| && k < |ts| && i != k && l < |ts[i]| && j < |ts[k]| && Distinct(Concat(ts))
    ensures ts[i][l] != ts[k][j]
  {
    var n := |ts| - 1;
    var u := Concat(ts[..n]);
    assert Concat(ts)[..|u|] == u;
    if i < n && k < n {
      assert Distinct(u);
      ConcatApart(ts[..n], i, l, k, j);
    } else if i < n {
      ConcatHas(ts[..n], i, l);
      assert Concat(ts)[|u| + j] == ts[k][j];
    } else {
      ConcatHas(ts[..n], k, j);
      assert Concat(ts)[|u| + l] == ts[i][l];
    }
  }

  lemma ConcatHas<T>(ts: seq<seq<T>>, i: nat, l: nat)
    requires i < |ts| && l < |ts[i]|
    ensures ts[i][l] in Concat(ts)
  {
    ConcatSlice(ts, i);
    var off := |Concat(ts[..i])|;
    assert Concat(ts)[off..off + |ts[i]|][l] == Concat(ts)[off + l];
  }
}
