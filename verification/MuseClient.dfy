/** A program's view of MUSE: what it stores in what it allocates it gets back. */
module MuseClient {
  import opened Bytes
  import opened Sequences
  import opened Blocks
  import opened HeapSpec
  import opened Muse
  import opened HeapRuns

  /** The block that a successful request adds is in the list and inside the heap. */
  lemma Allocated(h: Heap, size: int, room: nat, ps: nat, g: Heap) returns (k: nat)
    requires GoodHeap(h) && GoodHeap(g) && ps > 0
    requires var o := Malloc(h.blocks, size, room, ps); o.ok && g.blocks == o.blocks
    ensures var o := Malloc(h.blocks, size, room, ps);
            && k < |g.blocks| && g.blocks[k] == Block(o.result - META, size, false) && g.blocks[k].Payload() == o.result
            && o.result >= META && o.result + size <= |g.mem|
    ensures forall b :: b in Live(h.blocks) ==> b.End() <= g.blocks[k].addr || g.blocks[k].End() <= b.addr
  {
    var o := Malloc(h.blocks, size, room, ps);
    MallocKeeps(Machine(h.blocks, |h.mem|, Total(Used(h.blocks))), size, room, ps);
    var x := Block(o.result - META, size, false);
    assert x in Live(o.blocks);
    k := LiveIndex(g, x);
  }

  lemma Refused(b: seq<Block>, size: int, room: int, ps: nat)
    requires ps > 0 && size > 0
    ensures var o := Malloc(b, size, room, ps);
            && (!o.ok ==> o.result == FAILED) && (o.ok ==> CapacityOk(size, room, ps))
            && FAILED + 1 == WORD
  {
  }

  lemma Reads(mem: seq<byte>, at: nat, src: seq<byte>)
    requires at + |src| <= |mem|
    ensures |Splice(mem, at, src)| == |mem| && Splice(mem, at, src)[at..at + |src|] == src
  {
  }

  /** muse_alloc, muse_cpy and muse_get one after the other: the bytes come back exactly when
      there was room for them. */
  method AllocCopyGet(m: Muse, pid: nat, size: nat, src: seq<byte>) returns (address: nat, code: int, data: seq<byte>)
    requires m.Valid() && m.pager.pageSize > 0 && 0 < size < INT && |src| <= size
    requires Affordable(m.HeapOf(pid).blocks, size, m.Room(), m.pager.pageSize)
    modifies m, m.pager, m.pager.frames, m.pager.bitmap, m.pager.swapFile, m.pager.bitmapSwap, m.pager.pages,
      m.programList, m.pager.segments
    ensures m.Valid()
    ensures address == FAILED <==> !Malloc(old(m.HeapOf(pid)).blocks, size, old(m.Room()), m.pager.pageSize).ok
    ensures address != FAILED ==> code == 0 && data == src
  {
    hide *;
    GoodHeapOf(m, pid);
    ghost var h, room, ps := m.HeapOf(pid), m.Room(), m.pager.pageSize;
    Refused(h.blocks, size, room, ps);
    address := m.MemoryMalloc(size, pid, false);
    code, data := 0, [];
    GoodHeapOf(m, pid);
    HeapIsAt(m, pid);
    if address != FAILED {
      ghost var g := m.HeapOf(pid);
      ghost var k := Allocated(h, size, room, ps, g);
      var _ := m.MemoryCpy(address, src, pid, k);
      HeapIsAt(m, pid);
      Reads(g.mem, address, src);
      code, data := m.MemoryGet(address, |src|, pid);
    } else if Malloc(h.blocks, size, room, ps).ok {
      var _ := Allocated(h, size, room, ps, m.HeapOf(pid));
    }
  }
}
