/** What the requests of a program do to the bytes of its heap segment. */
module HeapRequests {
  import opened Bytes
  import opened Sequences
  import opened Pages
  import opened Paging
  import opened FlatMemory
  import opened Blocks
  import opened HeapSpec
  import opened Floats
  import opened SegmentHeap

  lemma SplitFacts(mem: seq<byte>, b: seq<Block>, k: nat, size: nat)
    requires Tiled(mem, b) && k < |b| && b[k].free && size + META <= b[k].size && |mem| < WORD
    ensures var at := b[k].addr; var next := at + META + size;
            && at + META <= |mem| && next + META <= |mem| && size < WORD && b[k].size < WORD
            && DecodeHeader(mem[at..at + META]) == Header(b[k].size, true)
            && var x := PutHeader(mem, at, Header(size, false));
               var m := PutHeader(x, next, Header(b[k].size - size - META, true));
               && DecodeHeader(x[at..at + META]) == Header(size, false)
               && Tiled(m, Split(b, k, size)) && Split(b, k, size) != [] && PayloadsKept(mem, m, b) && |m| == |mem|
    ensures META == 5
  {
    hide PutHeader, Tiled, Split, DecodeHeader, PayloadsKept;
    TiledStep(mem, b, k);
    PutSplit(mem, b, k, size);
    var at := b[k].addr;
    PutThenGet(mem, at, Header(size, false));
    var x := PutHeader(mem, at, Header(size, false));
    PayloadsPut(mem, b, k, Header(size, false));
    PayloadsPutFree(mem, x, b, k, at + META + size, Header(b[k].size - size - META, true));
  }

  lemma PayloadsPutFree(mem: seq<byte>, m: seq<byte>, b: seq<Block>, k: nat, at: nat, h: Header)
    requires Tiled(mem, b) && k < |b| && b[k].free && h.size < WORD && b[k].Payload() <= at && at + META <= b[k].End()
             && at + META <= |mem|
    requires PayloadsKept(mem, m, b)
    ensures PayloadsKept(mem, PutHeader(m, at, h), b)
  {
    var n := PutHeader(m, at, h);
    forall j, a | 0 <= j < |b| && !b[j].free && b[j].Payload() <= a < b[j].End() <= |mem| ensures n[a] == mem[a] {
      TilesOrder(b, 0, |mem|, k);
      TilesOrder(b, 0, |mem|, j);
      assert m[a] == mem[a];
    }
  }

  /** The block at `addr`, which is free and large enough, is taken and what is left of it
      becomes a free block after it (the branch of `memory_malloc` that finds space). */
  method AllocateAt(pager: Pager, seg: Segment, addr: nat, size: nat, ghost mem: seq<byte>, ghost b: seq<Block>,
                    ghost k: nat)
    returns (ghost m: seq<byte>)
    requires Walkable(pager, seg, mem, b) && k < |b| && b[k].free && b[k].addr == addr && size + META <= b[k].size
    modifies pager, pager.frames, pager.bitmap, pager.swapFile, pager.bitmapSwap, pager.pages
    ensures pager.Modified() == old(pager.Modified())
    ensures Walkable(pager, seg, m, Split(b, k, size)) && PayloadsKept(mem, m, b)
    ensures OthersKept(old(pager.contents), pager.contents, seg.pageTable)
    ensures pager.segments == old(pager.segments) && pager.pages == old(pager.pages)
  {
    hide *;
    ghost var was := pager.contents;
    WalkableIs(pager, seg, mem, b);
    SplitFacts(mem, b, k, size);
    var h := LoadHeader(pager, seg, addr, mem);
    StoreHeader(pager, seg, addr, Header(size, false), mem);
    ghost var mid := pager.contents;
    ghost var x := PutHeader(mem, addr, Header(size, false));
    var taken := LoadHeader(pager, seg, addr, x);
    var next := taken.size + META + addr;
    var _ := LoadHeader(pager, seg, next, x);
    StoreHeader(pager, seg, next, Header(h.size - size - META, true), x);
    m := PutHeader(x, next, Header(h.size - size - META, true));
    KeptTwice(was, mid, pager.contents, seg.pageTable);
    WalkableIs(pager, seg, m, Split(b, k, size));
    ghost var c := Split(b, k, size);
    TiledStep(m, c, 0);
    var last := LastHeader(pager, seg, 0, m, c, 0);
    TiledStep(m, c, |c| - 1);
    WalkableIs(pager, seg, m, c);
    var _ := LoadHeader(pager, seg, last, m);
    WalkableIs(pager, seg, m, c);
  }

  /** The loops over `page_with_free_size` that lengthen a segment by `n` pages. */
  method Extend(pager: Pager, seg: Segment, n: nat, ghost mem: seq<byte>) returns (ghost m: seq<byte>)
    requires Ready(pager, seg, mem) && seg.limit == |mem|
    requires |pager.pages| + n < pager.bitmap.Length + pager.bitmapSwap.Length
    modifies pager, pager.frames, pager.bitmap, pager.swapFile, pager.bitmapSwap, pager.pages, seg
    ensures pager.Modified() == old(pager.Modified())
    ensures Ready(pager, seg, m) && seg.limit == |m| && |m| == |mem| + Start(n, pager.pageSize) && m[..|mem|] == mem
    ensures OthersKept(old(pager.contents), pager.contents, seg.pageTable) && old(seg.pageTable) <= seg.pageTable
    ensures pager.segments == old(pager.segments) && |pager.pages| == old(|pager.pages|) + n
    ensures fresh(pager.pages - old(pager.pages)) && old(pager.pages) <= pager.pages
  {
    hide *;
    ghost var was := pager.contents;
    m := mem;
    ReadyFacts(pager, seg, mem);
    KeptAll(was, seg.pageTable);
    StartZero(pager.pageSize);
    for i := 0 to n
      invariant Ready(pager, seg, m) && seg.limit == |m| && |m| == |mem| + Start(i, pager.pageSize) && m[..|mem|] == mem
      invariant OthersKept(was, pager.contents, seg.pageTable) && old(seg.pageTable) <= seg.pageTable
      invariant pager.segments == old(pager.segments) && |pager.pages| == old(|pager.pages|) + i
      invariant fresh(pager.pages - old(pager.pages)) && old(pager.pages) <= pager.pages
      invariant pager.Modified() == old(pager.Modified())
    {
      m := AddOne(pager, seg, m, was);
      StartNext(i, pager.pageSize);
    }
  }

  method AddOne(pager: Pager, seg: Segment, ghost mem: seq<byte>, ghost was: map<Page, seq<byte>>)
      returns (ghost m: seq<byte>)
    requires Ready(pager, seg, mem) && seg.limit == |mem|
    requires |pager.pages| + 1 < pager.bitmap.Length + pager.bitmapSwap.Length
    requires OthersKept(was, pager.contents, seg.pageTable)
    modifies pager, pager.bitmap, pager.swapFile, pager.bitmapSwap, pager.pages, seg
    ensures pager.Modified() == old(pager.Modified())
    ensures Ready(pager, seg, m) && seg.limit == |m| && |m| == |mem| + pager.pageSize && m[..|mem|] == mem
    ensures OthersKept(was, pager.contents, seg.pageTable) && old(seg.pageTable) <= seg.pageTable
    ensures pager.segments == old(pager.segments) && |pager.pages| == old(|pager.pages|) + 1
    ensures fresh(pager.pages - old(pager.pages)) && old(pager.pages) <= pager.pages
  {
    hide *;
    ReadyFacts(pager, seg, mem);
    ghost var table, cs := seg.pageTable, pager.contents;
    ghost var pag := pager.AddPage(seg);
    assert pag !in old(pager.pages);
    FlatGrow(table, cs, pager.pageSize, pag, pager.contents);
    m := mem + pager.contents[pag];
    pager.RoomCounts();
    KeptGrows(was, cs, pager.contents, table, pag);
    StillReady(pager, seg, m);
  }

  lemma KeptGrows(was: map<Page, seq<byte>>, mid: map<Page, seq<byte>>, now: map<Page, seq<byte>>, table: seq<Page>,
                  p: Page)
    requires OthersKept(was, mid, table) && p !in mid && p in now && now == mid[p := now[p]]
    ensures OthersKept(was, now, table + [p])
  {
  }

  lemma GrowFacts(mem: seq<byte>, b: seq<Block>, bytes: nat)
    requires Tiled(mem, b) && b != [] && b[|b| - 1].free && |mem| + bytes < WORD
    ensures var l := b[|b| - 1]; l.addr + META <= |mem| && l.size + bytes < WORD && Grow(b, bytes) != []
  {
    TiledStep(mem, b, |b| - 1);
  }

  lemma GrowPut(mem: seq<byte>, b: seq<Block>, bytes: nat, m: seq<byte>)
    requires Tiled(mem, b) && b != [] && b[|b| - 1].free && |mem| + bytes < WORD
    requires var l := b[|b| - 1]; l.addr + META <= |mem| && l.size + bytes < WORD
    requires |m| == |mem| + bytes
    requires var l := b[|b| - 1]; m[..|mem|] == PutHeader(mem, l.addr, Header(l.size + bytes, true))
    ensures Tiled(m, Grow(b, bytes)) && PayloadsKept(mem, m, b)
  {
    hide PutHeader, HeaderIs, PayloadsKept, Tiles;
    var l := b[|b| - 1];
    var x := PutHeader(mem, l.addr, Header(l.size + bytes, true));
    GrowTiles(b, |mem|, bytes);
    PayloadsPut(mem, b, |b| - 1, Header(l.size + bytes, true));
    PayloadsWider(mem, x, m, b);
    forall i | 0 <= i < |Grow(b, bytes)| ensures HeaderIs(m, Grow(b, bytes)[i]) {
      GrowPutAt(mem, b, bytes, i);
      HeaderWider(x, m, Grow(b, bytes)[i]);
    }
  }

  lemma HeaderWider(x: seq<byte>, m: seq<byte>, b: Block)
    requires |x| <= |m| && m[..|x|] == x && HeaderIs(x, b)
    ensures HeaderIs(m, b)
  {
    SliceOfSlice(m, 0, |x|, b.addr, b.addr + META);
  }

  lemma PayloadsWider(mem: seq<byte>, x: seq<byte>, m: seq<byte>, b: seq<Block>)
    requires PayloadsKept(mem, x, b) && |x| <= |m| && m[..|x|] == x
    ensures PayloadsKept(mem, m, b)
  {
    forall j, a | 0 <= j < |b| && !b[j].free && b[j].Payload() <= a < b[j].End() <= |mem| ensures m[a] == mem[a] {
      assert m[a] == x[a];
    }
  }

  lemma GrowPutAt(mem: seq<byte>, b: seq<Block>, bytes: nat, i: nat)
    requires Tiled(mem, b) && b != [] && i < |b| && |mem| + bytes < WORD
    requires var l := b[|b| - 1]; l.addr + META <= |mem| && l.size + bytes < WORD
    ensures |Grow(b, bytes)| == |b|
    ensures var l := b[|b| - 1]; HeaderIs(PutHeader(mem, l.addr, Header(l.size + bytes, true)), Grow(b, bytes)[i])
  {
    hide HeaderIs, EncodeHeader;
    var n := |b| - 1;
    var c := Block(b[n].addr, b[n].size + bytes, true);
    TilesOrder(b, 0, |mem|, i);
    if i == n {
      PutIs(mem, c);
    } else {
      PutElsewhere(mem, c.addr, EncodeHeader(Header(c.size, c.free)), b[i]);
    }
  }

  lemma GrowTiles(b: seq<Block>, limit: nat, bytes: nat)
    requires Tiles(b, 0, limit) && b != []
    ensures Tiles(Grow(b, bytes), 0, limit + bytes)
  {
    var n := |b| - 1;
    var c := Block(b[n].addr, b[n].size + bytes, true);
    TilesOrder(b, 0, limit, n);
    assert [c][1..] == [];
    TilesJoin(b[..n], [c], 0, c.addr, limit + bytes);
    assert b[..n] + [c] == Grow(b, bytes);
  }

  lemma GrowIs(b: seq<Block>, size: nat, ps: nat)
    requires ps > 0 && b != []
    requires b[|b| - 1].size < size + META && Counts(b, size, ps)
    ensures var lack, was := size + META - b[|b| - 1].size, b[|b| - 1].size;
            && Growth(b, size, ps) == PagesMore(lack, ps)
            && Lengthened(PagesMore(lack, ps), ps, was) == was + Growth(b, size, ps) * ps
  {
    hide PagesMore, Lengthened, CeilDiv;
  }

  lemma StartIs(n: nat, ps: nat)
    ensures Start(n, ps) == n * ps
  {
  }

  /** The branch of `memory_malloc` that lengthens an existing heap segment: the last header
      is rewritten first, then the pages are added. */
  method GrowHeap(pager: Pager, seg: Segment, size: nat, ghost mem: seq<byte>, ghost b: seq<Block>)
      returns (ghost m: seq<byte>)
    requires Walkable(pager, seg, mem, b) && b != [] && b[|b| - 1].free && pager.pageSize > 0
    requires b[|b| - 1].size < size + META && Counts(b, size, pager.pageSize)
    requires var n := Growth(b, size, pager.pageSize);
             && |pager.pages| + n < pager.bitmap.Length + pager.bitmapSwap.Length
             && |mem| + Start(n, pager.pageSize) < WORD
    modifies pager, pager.frames, pager.bitmap, pager.swapFile, pager.bitmapSwap, pager.pages, seg
    ensures pager.Modified() == old(pager.Modified())
    ensures Walkable(pager, seg, m, Grow(b, Start(Growth(b, size, pager.pageSize), pager.pageSize)))
            && PayloadsKept(mem, m, b)
    ensures OthersKept(old(pager.contents), pager.contents, seg.pageTable)
    ensures pager.segments == old(pager.segments)
            && |pager.pages| == old(|pager.pages|) + Growth(b, size, pager.pageSize)
    ensures fresh(pager.pages - old(pager.pages)) && old(pager.pages) <= pager.pages
  {
    hide *;
    ghost var was, table := pager.contents, seg.pageTable;
    var ps := pager.pageSize;
    WalkableIs(pager, seg, mem, b);
    TiledStep(mem, b, 0);
    TiledStep(mem, b, |b| - 1);
    GrowIs(b, size, ps);
    var last := LastHeader(pager, seg, 0, mem, b, 0);
    WalkableIs(pager, seg, mem, b);
    var h := LoadHeader(pager, seg, last, mem);
    var need := size + META;
    var n := PagesMore(need - h.size, ps);
    var stored := Lengthened(n, ps, h.size);
    StartIs(n, ps);
    ghost var bytes := Start(n, ps);
    GrowFacts(mem, b, bytes);
    StoreHeader(pager, seg, last, Header(stored, true), mem);
    ghost var x, mid := PutHeader(mem, last, Header(stored, true)), pager.contents;
    var _ := LoadHeader(pager, seg, last, x);
    m := Extend(pager, seg, n, x);
    GrowPut(mem, b, bytes, m);
    KeptWider(was, mid, pager.contents, table, seg.pageTable);
    var _ := LoadHeader(pager, seg, last, m);
    WalkableIs(pager, seg, m, Grow(b, bytes));
  }

  lemma KeptWider(a: map<Page, seq<byte>>, b: map<Page, seq<byte>>, c: map<Page, seq<byte>>, t: seq<Page>, u: seq<Page>)
    requires OthersKept(a, b, t) && OthersKept(b, c, u) && t <= u
    ensures OthersKept(a, c, u)
  {
    assert forall p :: p in t ==> p in u;
  }

  lemma FirstTiled(mem: seq<byte>, bytes: nat)
    requires META <= bytes == |mem| < WORD
    ensures var m := PutHeader(mem, 0, Header(bytes - META, true));
            Tiled(m, Grow([], bytes)) && |m| == |mem| && Grow([], bytes) == [Block(0, bytes - META, true)]
  {
    var x := Block(0, bytes - META, true);
    PutIs(mem, x);
    assert [x][1..] == [];
  }

  /** The branch of `memory_malloc` that gives a program its first segment. */
  method FirstHeap(pager: Pager, seg: Segment, size: nat) returns (ghost m: seq<byte>)
    requires Ready(pager, seg, []) && seg.limit == 0 && pager.pageSize > 0
    requires var n := Growth([], size, pager.pageSize);
             && |pager.pages| + n < pager.bitmap.Length + pager.bitmapSwap.Length
             && Start(n, pager.pageSize) < WORD
    modifies pager, pager.frames, pager.bitmap, pager.swapFile, pager.bitmapSwap, pager.pages, seg
    ensures pager.Modified() == old(pager.Modified())
    ensures Start(Growth([], size, pager.pageSize), pager.pageSize) >= META
    ensures Walkable(pager, seg, m, Grow([], Start(Growth([], size, pager.pageSize), pager.pageSize)))
    ensures OthersKept(old(pager.contents), pager.contents, seg.pageTable)
    ensures pager.segments == old(pager.segments)
            && |pager.pages| == old(|pager.pages|) + Growth([], size, pager.pageSize)
    ensures fresh(pager.pages - old(pager.pages)) && old(pager.pages) <= pager.pages
  {
    hide *;
    var ps := pager.pageSize;
    FirstGrowth(size, ps);
    ghost var was := pager.contents;
    var need := size + 2 * META;
    var n := CeilDiv(need, ps);
    m := Extend(pager, seg, n, []);
    ghost var mid := pager.contents;
    var bytes := Start(n, ps);
    FirstTiled(m, bytes);
    StoreHeader(pager, seg, 0, Header(bytes - META, true), m);
    m := PutHeader(m, 0, Header(bytes - META, true));
    KeptTwice(was, mid, pager.contents, seg.pageTable);
    WalkableIs(pager, seg, m, Grow([], bytes));
    var _ := LoadHeader(pager, seg, 0, m);
    WalkableIs(pager, seg, m, Grow([], bytes));
  }

  lemma FirstGrowth(size: nat, ps: nat)
    requires ps > 0
    ensures Growth([], size, ps) == CeilDiv(size + 2 * META, ps)
    ensures Start(CeilDiv(size + 2 * META, ps), ps) >= META == 5
  {
    CeilDivCovers(size + 2 * META, ps);
  }

  // ---- memory_free ----

  function Marked(b: seq<Block>, k: nat): (r: seq<Block>)
    requires k < |b|
    ensures |r| == |b|
  {
    b[k := b[k].(free := true)]
  }

  lemma MarkPut(mem: seq<byte>, b: seq<Block>, k: nat)
    requires Tiled(mem, b) && k < |b| && |mem| < WORD
    ensures b[k].addr + META <= |mem| && b[k].size < WORD
    ensures DecodeHeader(mem[b[k].addr..b[k].addr + META]).size == b[k].size
    ensures var m := PutHeader(mem, b[k].addr, Header(b[k].size, true));
            Tiled(m, Marked(b, k)) && |m| == |mem| && PayloadsKept(mem, m, b)
    ensures |b| == 1 ==> Marked(b, k)[0].free
    ensures Marked(b, k) != []
  {
    TiledStep(mem, b, k);
    PutCovering(mem, b, k, k + 1, b[k].(free := true));
    assert Marked(b, k) == b[..k] + [b[k].(free := true)] + b[k + 1..];
    PayloadsPut(mem, b, k, Header(b[k].size, true));
  }

  lemma ReleaseIs(b: seq<Block>, k: nat, guarded: bool)
    requires k < |b|
    ensures Compact(Marked(b, k), guarded) == Release(b, k, guarded)
  {
  }

  lemma MarkedPayloads(x: seq<byte>, y: seq<byte>, z: seq<byte>, b: seq<Block>, k: nat)
    requires k < |b| && PayloadsKept(x, y, b) && PayloadsKept(y, z, Marked(b, k))
    ensures PayloadsKept(x, z, Marked(b, k))
  {
    var c := Marked(b, k);
    forall j, a | 0 <= j < |c| && !c[j].free && c[j].Payload() <= a < c[j].End() <= |x| ensures z[a] == x[a] {
      assert c[j] == b[j];
      assert z[a] == y[a];
    }
  }

  /** `memory_free` on the segment: the header is marked and the segment compacted.  No byte
      of a payload that stays in use changes. */
  method FreeAt(pager: Pager, seg: Segment, addr: nat, guarded: bool, ghost mem: seq<byte>, ghost b: seq<Block>,
                ghost k: nat)
    returns (size: nat, ghost m: seq<byte>)
    requires Walkable(pager, seg, mem, b) && k < |b| && b[k].addr == addr
    modifies pager, pager.frames, pager.bitmap, pager.swapFile, pager.bitmapSwap, pager.pages
    ensures pager.Modified() == old(pager.Modified())
    ensures Walkable(pager, seg, m, Release(b, k, guarded)) && PayloadsKept(mem, m, Marked(b, k))
    ensures size == b[k].size
    ensures OthersKept(old(pager.contents), pager.contents, seg.pageTable)
    ensures pager.segments == old(pager.segments) && pager.pages == old(pager.pages)
  {
    hide *;
    ghost var was := pager.contents;
    WalkableIs(pager, seg, mem, b);
    MarkPut(mem, b, k);
    var h := LoadHeader(pager, seg, addr, mem);
    size := h.size;
    StoreHeader(pager, seg, addr, Header(size, true), mem);
    ghost var x, mid := PutHeader(mem, addr, Header(size, true)), pager.contents;
    WalkableIs(pager, seg, x, Marked(b, k));
    m := CompactSegment(pager, seg, guarded, x, Marked(b, k));
    ReleaseIs(b, k, guarded);
    MarkedPayloads(mem, x, m, b, k);
    KeptTwice(was, mid, pager.contents, seg.pageTable);
  }

  // ---- memory_cpy and memory_get ----

  lemma PagesFor(at: nat, n: nat, ps: nat, t: nat)
    requires ps > 0 && at + n <= Start(t, ps)
    ensures var p, off := at / ps, at % ps;
            var c := CeilDiv(off + n, ps);
            && at == Start(p, ps) + off && p + c <= t && at + n <= Start(p + c, ps) < at + n + ps
  {
    var p, off := at / ps, at % ps;
    StartOf(at, ps);
    CeilDivCovers(off + n, ps);
    var c, x := CeilDiv(off + n, ps), off + n;
    hide *;
    PagesBound(p, c, x, ps, t);
  }

  lemma PagesBound(p: nat, c: nat, x: nat, ps: nat, t: nat)
    requires ps > 0 && x <= c * ps && (if c == 0 then x == 0 else (c - 1) * ps < x)
    requires Start(p, ps) + x <= Start(t, ps)
    ensures p + c <= t && Start(p, ps) + x <= Start(p + c, ps) < Start(p, ps) + x + ps
  {
    StartDiff(p, c, ps);
    if c > 0 && p + c > t {
      StartDiff(p, c - 1, ps);
      MulMono(t, p + c - 1, ps);
    } else if p > t {
      MulMono(t + 1, p, ps);
    }
  }

  /** How many pages `memory_cpy` backs up for the header. */
  lemma PagesBack(at: nat, ps: nat)
    requires ps > 0 && META <= at && at % ps < META
    ensures var p, off := at / ps, at % ps;
            var c := CeilDiv(META - off, ps);
            && c <= p && META <= c * ps + off < META + ps && Start(p - c, ps) + c * ps + off == at
  {
    var p, off := at / ps, at % ps;
    StartOf(at, ps);
    StartIs(p, ps);
    var x := META - off;
    CeilDivCovers(x, ps);
    var c := CeilDiv(x, ps);
    hide *;
    BackBound(p, c, x, ps);
  }

  lemma BackBound(p: nat, c: nat, x: nat, ps: nat)
    requires 0 < x <= c * ps && c > 0 && (c - 1) * ps < x <= p * ps
    ensures c <= p && Start(p - c, ps) + c * ps == p * ps
  {
    MulCancel(c - 1, p, ps);
    StartDiff(p - c, c, ps);
  }

  lemma Joined(mem: seq<byte>, a: nat, b: nat, c: nat)
    requires a <= b <= c <= |mem|
    ensures mem[a..b] + mem[b..c] == mem[a..c]
  {
  }

  /** The first loop of `memory_cpy` and the loop of `memory_get`: `count` pages, from page
      `p` on, are copied into a buffer. */
  method ReadPages(pager: Pager, seg: Segment, p: nat, count: nat, ghost mem: seq<byte>) returns (buffer: seq<byte>)
    requires Ready(pager, seg, mem) && p + count <= |seg.pageTable|
    modifies pager, pager.frames, pager.bitmap, pager.swapFile, pager.bitmapSwap, pager.pages
    ensures pager.Modified() == old(pager.Modified())
    ensures Ready(pager, seg, mem) && pager.contents == old(pager.contents)
    ensures pager.segments == old(pager.segments) && pager.pages == old(pager.pages)
    ensures Start(p, pager.pageSize) <= Start(p + count, pager.pageSize) <= |mem|
    ensures buffer == mem[Start(p, pager.pageSize)..Start(p + count, pager.pageSize)]
  {
    hide *;
    var ps := pager.pageSize;
    ReadyFacts(pager, seg, mem);
    buffer := [];
    StartMono(p, |seg.pageTable|, ps);
    for i := 0 to count
      invariant Ready(pager, seg, mem) && pager.contents == old(pager.contents)
      invariant pager.segments == old(pager.segments) && pager.pages == old(pager.pages)
      invariant pager.Modified() == old(pager.Modified())
      invariant Start(p, ps) <= Start(p + i, ps) <= |mem|
      invariant buffer == mem[Start(p, ps)..Start(p + i, ps)]
    {
      var bytes := LoadPage(pager, seg, p + i, mem);
      StartNext(p + i, ps);
      Joined(mem, Start(p, ps), Start(p + i, ps), Start(p + i + 1, ps));
      buffer := buffer + bytes;
    }
  }

  /** `memory_get` on a heap segment that holds all the bytes asked for. */
  method GetAt(pager: Pager, seg: Segment, src: nat, n: nat, ghost mem: seq<byte>) returns (data: seq<byte>)
    requires Ready(pager, seg, mem) && src + n <= |mem|
    modifies pager, pager.frames, pager.bitmap, pager.swapFile, pager.bitmapSwap, pager.pages
    ensures pager.Modified() == old(pager.Modified())
    ensures Ready(pager, seg, mem) && pager.contents == old(pager.contents)
    ensures pager.segments == old(pager.segments) && pager.pages == old(pager.pages)
    ensures data == mem[src..src + n]
  {
    hide *;
    ReadyFacts(pager, seg, mem);
    var ps := pager.pageSize;
    var p, off := src / ps, src % ps;
    var count := CeilDiv(off + n, ps);
    PagesFor(src, n, ps, |seg.pageTable|);
    var buffer := ReadPages(pager, seg, p, count, mem);
    data := buffer[off..off + n];
    SliceOfSlice(mem, Start(p, ps), Start(p + count, ps), off, off + n);
  }

  lemma SpliceSlice(mem: seq<byte>, a: nat, b: nat, i: nat, data: seq<byte>)
    requires a <= b <= |mem| && a + i + |data| <= b
    ensures Splice(mem, a, Splice(mem[a..b], i, data)) == Splice(mem, a + i, data)
    ensures |Splice(mem[a..b], i, data)| == b - a
  {
  }

  ghost function Run(table: seq<Page>, i: nat, j: nat): set<Page>
    requires i <= j <= |table|
  {
    set x | i <= x < j :: table[x]
  }

  lemma RunNone(table: seq<Page>, i: nat)
    requires i <= |table|
    ensures Run(table, i, i) == {}
  {
  }

  lemma RunNext(table: seq<Page>, i: nat, j: nat)
    requires i <= j < |table|
    ensures Run(table, i, j + 1) == Run(table, i, j) + {table[j]}
  {
    forall p | p in Run(table, i, j + 1) ensures p in Run(table, i, j) + {table[j]} {
      var x :| i <= x < j + 1 && table[x] == p;
      if x < j {
        assert p in Run(table, i, j);
      }
    }
  }

  /** The second loop of `memory_cpy`: the buffer goes back page by page. */
  method WritePages(pager: Pager, seg: Segment, p: nat, count: nat, buffer: seq<byte>, ghost mem: seq<byte>)
    requires Ready(pager, seg, mem) && p + count <= |seg.pageTable|
    requires |buffer| == Start(count, pager.pageSize) && Start(p, pager.pageSize) + |buffer| <= |mem|
    modifies pager, pager.frames, pager.bitmap, pager.swapFile, pager.bitmapSwap, pager.pages
    ensures Ready(pager, seg, Splice(mem, Start(p, pager.pageSize), buffer))
    ensures pager.Modified() == old(pager.Modified()) + Run(seg.pageTable, p, p + count)
    ensures OthersKept(old(pager.contents), pager.contents, seg.pageTable)
    ensures pager.segments == old(pager.segments) && pager.pages == old(pager.pages)
  {
    hide *;
    var ps := pager.pageSize;
    ReadyFacts(pager, seg, mem);
    ghost var was, s0 := pager.contents, Start(p, ps);
    KeptAll(was, seg.pageTable);
    SpliceNone(mem, s0, buffer);
    StartZero(ps);
    RunNone(seg.pageTable, p);
    ghost var m := mem;
    for x := 0 to count
      invariant Start(x, ps) <= |buffer|
      invariant m == Splice(mem, s0, buffer[..Start(x, ps)]) && Ready(pager, seg, m)
      invariant pager.Modified() == old(pager.Modified()) + Run(seg.pageTable, p, p + x)
      invariant OthersKept(was, pager.contents, seg.pageTable)
      invariant pager.segments == old(pager.segments) && pager.pages == old(pager.pages)
    {
      StartNext(x, ps);
      StartMono(x + 1, count, ps);
      StartDiff(p, x, ps);
      ghost var mid := pager.contents;
      var at := Start(x, ps);
      WritePage(pager, seg, p + x, buffer[at..at + ps], m);
      SpliceMore(mem, s0, buffer, at, ps);
      RunNext(seg.pageTable, p, p + x);
      m := Splice(m, s0 + at, buffer[at..at + ps]);
      KeptTwice(was, mid, pager.contents, seg.pageTable);
    }
    assert buffer[..|buffer|] == buffer;
  }

  method WritePage(pager: Pager, seg: Segment, page: nat, data: seq<byte>, ghost mem: seq<byte>)
    requires Ready(pager, seg, mem) && page < |seg.pageTable| && |data| == pager.pageSize
    requires Start(page, pager.pageSize) + pager.pageSize <= |mem|
    modifies pager, pager.frames, pager.bitmap, pager.swapFile, pager.bitmapSwap, pager.pages
    ensures Ready(pager, seg, Splice(mem, Start(page, pager.pageSize), data))
    ensures OthersKept(old(pager.contents), pager.contents, seg.pageTable)
    ensures pager.segments == old(pager.segments) && pager.pages == old(pager.pages)
    ensures pager.Modified() == old(pager.Modified()) + {seg.pageTable[page]}
  {
    hide *;
    ReadyFacts(pager, seg, mem);
    pager.MarkModified(seg.pageTable[page]);
    StillReady(pager, seg, mem);
    var _ := LoadPage(pager, seg, page, mem);
    WriteBytes(pager, seg, page, seg.pageTable[page].fr, 0, data, mem);
  }

  lemma SpliceNone(mem: seq<byte>, at: nat, buffer: seq<byte>)
    requires at <= |mem|
    ensures Splice(mem, at, buffer[..0]) == mem
  {
  }

  lemma SpliceMore(mem: seq<byte>, at: nat, buffer: seq<byte>, k: nat, n: nat)
    requires at + |buffer| <= |mem| && k + n <= |buffer|
    ensures Splice(Splice(mem, at, buffer[..k]), at + k, buffer[k..k + n]) == Splice(mem, at, buffer[..k + n])
  {
  }

  lemma StartDiff(p: nat, x: nat, ps: nat)
    ensures Start(p + x, ps) == Start(p, ps) + Start(x, ps)
  {
  }

  /** The pages that `memory_cpy` copies: those of the bytes to write and, when the header
      before them starts earlier, the pages of the header. */
  method PagesToCopy(dst: nat, n: nat, ps: nat, tableSize: nat) returns (p: nat, count: nat, pos: nat)
    requires ps > 0 && META <= dst && dst + n <= Start(tableSize, ps)
    ensures p + count <= tableSize && Start(p, ps) + pos + META == dst && pos < ps
    ensures dst + n <= Start(p, ps) + Start(count, ps) < dst + n + ps
  {
    var off := dst % ps;
    p := dst / ps;
    var before: int := off - META;
    count := CeilDiv(off + n, ps);
    PagesFor(dst, n, ps, tableSize);
    StartDiff(p, count, ps);
    if before < 0 {
      PagesBack(dst, ps);
      var aux := CeilDiv(-before, ps);
      StartDiff(p - aux, aux + count, ps);
      StartDiff(p, count, ps);
      count := count + aux;
      p := p - aux;
      before := aux * ps + off - META;
    }
    pos := before;
    if count > tableSize {
      count := tableSize;
    }
  }

  /** Page `j` holds one of the `n` bytes at `at`. */
  predicate Touches(j: nat, ps: nat, at: int, n: int) {
    Start(j, ps) < at + n && at < Start(j + 1, ps)
  }

  ghost function Touched(table: seq<Page>, ps: nat, at: int, n: int): set<Page> {
    set j: nat | j < |table| && Touches(j, ps, at, n) :: table[j]
  }

  lemma TouchedIff(j: nat, ps: nat, at: nat, n: nat, p: nat, count: nat)
    requires Start(p, ps) <= at < Start(p, ps) + ps
    requires at + n <= Start(p + count, ps) < at + n + ps
    ensures Touches(j, ps, at, n) <==> p <= j < p + count
  {
    StartNext(p, ps);
    StartNext(j, ps);
    if j < p {
      StartMono(j + 1, p, ps);
    } else if p + count <= j {
      StartMono(p + count, j, ps);
    } else {
      StartMono(p, j, ps);
      StartMono(j + 1, p + count, ps);
    }
  }

  lemma TouchedAre(table: seq<Page>, ps: nat, at: nat, n: nat, p: nat, count: nat)
    requires p + count <= |table| && Start(p, ps) <= at < Start(p, ps) + ps
    requires at + n <= Start(p + count, ps) < at + n + ps
    ensures Touched(table, ps, at, n) == Run(table, p, p + count)
  {
    forall j: nat ensures Touches(j, ps, at, n) <==> p <= j < p + count {
      TouchedIff(j, ps, at, n, p, count);
    }
    hide Touches, Start;
  }

  /** `memory_cpy` on a heap segment: the bytes are written exactly when the five bytes before
      `dst` say a block in use of at least that size. */
  method CopyAt(pager: Pager, seg: Segment, dst: nat, src: seq<byte>, ghost mem: seq<byte>) returns (ok: bool)
    requires Ready(pager, seg, mem) && META <= dst && dst + |src| <= |mem|
    modifies pager, pager.frames, pager.bitmap, pager.swapFile, pager.bitmapSwap, pager.pages
    ensures ok <==> var h := DecodeHeader(mem[dst - META..dst]); !h.free && h.size >= |src|
    ensures Ready(pager, seg, if ok then Splice(mem, dst, src) else mem)
    ensures pager.Modified() == if !ok then old(pager.Modified()) else
              old(pager.Modified()) + Touched(seg.pageTable, pager.pageSize, dst - META, |src| + META)
    ensures OthersKept(old(pager.contents), pager.contents, seg.pageTable)
    ensures pager.segments == old(pager.segments) && pager.pages == old(pager.pages)
  {
    hide *;
    ReadyFacts(pager, seg, mem);
    KeptAll(pager.contents, seg.pageTable);
    var p, count, pos := PagesToCopy(dst, |src|, pager.pageSize, |seg.pageTable|);
    StartDiff(p, count, pager.pageSize);
    var buffer := ReadPages(pager, seg, p, count, mem);
    SliceOfSlice(mem, Start(p, pager.pageSize), Start(p + count, pager.pageSize), pos, pos + META);
    var h := DecodeHeader(buffer[pos..pos + META]);
    pos := pos + META;
    ok := !h.free && h.size >= |src|;
    if ok {
      SpliceSlice(mem, Start(p, pager.pageSize), Start(p + count, pager.pageSize), pos, src);
      WritePages(pager, seg, p, count, Splice(buffer, pos, src), mem);
      TouchedAre(seg.pageTable, pager.pageSize, dst - META, |src| + META, p, count);
    }
  }
}
