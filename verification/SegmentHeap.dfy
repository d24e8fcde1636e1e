/** The allocator's walks over the in-band headers of one segment, page by page. */
module SegmentHeap {
  import opened Bytes
  import opened Sequences
  import opened Pages
  import opened Paging
  import opened FlatMemory
  import opened Blocks
  import opened HeapSpec

  /** A segment whose page table is in the pager's charge. */
  ghost predicate Mapped(pager: Pager, seg: Segment)
    reads pager, seg
  {
    && seg in pager.segments
    && Distinct(seg.pageTable)
    && (forall i :: 0 <= i < |seg.pageTable| ==> seg.pageTable[i] in pager.pages)
    && Backed(seg.pageTable, pager.contents, pager.pageSize)
  }

  /** The bytes of a segment at its logical addresses. */
  ghost function Mem(pager: Pager, seg: Segment): (m: seq<byte>)
    requires Mapped(pager, seg)
    reads pager, seg
    ensures |m| == |seg.pageTable| * pager.pageSize
  {
    Flat(seg.pageTable, pager.contents, pager.pageSize)
  }

  /** Ready for a request on `seg`, which holds the bytes `mem`: the pager is sound and has a
      frame or a swap slot to spare. */
  ghost predicate Ready(pager: Pager, seg: Segment, mem: seq<byte>)
    reads pager, pager.frames, pager.bitmap, pager.swapFile, pager.bitmapSwap, pager.pages, pager.segments, seg
  {
    pager.Sound() && pager.HasRoom() && Mapped(pager, seg) && Mem(pager, seg) == mem
  }

  lemma IsMapped(pager: Pager, seg: Segment)
    requires pager.Sound() && seg in pager.segments
    ensures Mapped(pager, seg)
  {
    var s :| 0 <= s < |pager.segments| && pager.segments[s] == seg;
    AllPagesSlice(pager.segments, s);
    pager.SoundFacts();
    SliceListed(AllPages(pager.segments), pager.pages, |AllPages(pager.segments[..s])|, seg.pageTable);
    hide AllPages, Enumerates, Pager.Workable;
  }

  /** Part of an enumeration. */
  lemma SliceListed(order: seq<Page>, pages: set<Page>, off: nat, table: seq<Page>)
    requires Enumerates(order, pages) && off + |table| <= |order| && order[off..off + |table|] == table
    ensures Distinct(table) && forall i :: 0 <= i < |table| ==> table[i] in pages
  {
    forall i | 0 <= i < |table| ensures order[off + i] == table[i] {
      assert order[off..off + |table|][i] == table[i];
    }
  }

  lemma ReadyFacts(pager: Pager, seg: Segment, mem: seq<byte>)
    requires Ready(pager, seg, mem)
    ensures pager.Sound() && pager.HasRoom() && Mapped(pager, seg) && pager.pageSize >= 4
    ensures seg in pager.segments && Distinct(seg.pageTable)
    ensures forall i :: 0 <= i < |seg.pageTable| ==> seg.pageTable[i] in pager.pages
    ensures Backed(seg.pageTable, pager.contents, pager.pageSize)
    ensures mem == Flat(seg.pageTable, pager.contents, pager.pageSize)
            && |mem| == Start(|seg.pageTable|, pager.pageSize)
    ensures META == 5
  {
  }

  lemma StillReady(pager: Pager, seg: Segment, mem: seq<byte>)
    requires pager.Sound() && pager.HasRoom() && seg in pager.segments
    requires Backed(seg.pageTable, pager.contents, pager.pageSize)
    requires mem == Flat(seg.pageTable, pager.contents, pager.pageSize)
    ensures Ready(pager, seg, mem)
  {
    IsMapped(pager, seg);
  }

  /** The bytes of one page, which is brought into memory first when it is absent. */
  method LoadPage(pager: Pager, seg: Segment, page: nat, ghost mem: seq<byte>) returns (bytes: seq<byte>)
    requires Ready(pager, seg, mem) && page < |seg.pageTable|
    modifies pager, pager.frames, pager.bitmap, pager.swapFile, pager.bitmapSwap, pager.pages
    ensures pager.Modified() == old(pager.Modified())
    ensures Ready(pager, seg, mem) && pager.contents == old(pager.contents)
    ensures pager.segments == old(pager.segments) && pager.pages == old(pager.pages)
    ensures seg.pageTable[page].isPresent
    ensures |bytes| == pager.pageSize && Start(page, pager.pageSize) + pager.pageSize <= |mem|
    ensures bytes == mem[Start(page, pager.pageSize)..Start(page, pager.pageSize) + pager.pageSize]
  {
    hide *;
    ReadyFacts(pager, seg, mem);
    var pag := seg.pageTable[page];
    if !pag.isPresent {
      pager.FetchFrame(pag);
    }
    bytes := pager.ReadPage(pag);
    FlatWhole(seg.pageTable, pager.contents, pager.pageSize, page);
    StillReady(pager, seg, mem);
  }

  /** `buscar_metadata_por_direccion`: the header at a logical address, whether or not it is
      split between two pages.  Nothing changes but where pages are. */
  method LoadHeader(pager: Pager, seg: Segment, addr: nat, ghost mem: seq<byte>) returns (h: Header)
    requires Ready(pager, seg, mem) && addr + META <= |mem|
    modifies pager, pager.frames, pager.bitmap, pager.swapFile, pager.bitmapSwap, pager.pages
    ensures pager.Modified() == old(pager.Modified())
    ensures Ready(pager, seg, mem) && pager.contents == old(pager.contents)
    ensures pager.segments == old(pager.segments) && pager.pages == old(pager.pages)
    ensures h == DecodeHeader(mem[addr..addr + META])
  {
    hide *;
    ReadyFacts(pager, seg, mem);
    var ps := pager.pageSize;
    var page, off := addr / ps, addr % ps;
    PageOf(addr, META, ps, |seg.pageTable|);
    var bytes := LoadPage(pager, seg, page, mem);
    if off + META > ps {
      var more := LoadPage(pager, seg, page + 1, mem);
      Stitch(mem, Start(page, ps), off, META, ps);
      h := DecodeHeader(bytes[off..] + more[..META - (ps - off)]);
    } else {
      SliceOfSlice(mem, Start(page, ps), Start(page, ps) + ps, off, off + META);
      h := DecodeHeader(bytes[off..off + META]);
    }
  }

  lemma Stitch(mem: seq<byte>, at: nat, off: nat, k: nat, ps: nat)
    requires off <= ps && ps <= off + k <= 2 * ps && at + 2 * ps <= |mem|
    ensures mem[at..at + ps][off..] + mem[at + ps..at + ps + ps][..k - (ps - off)] == mem[at + off..at + off + k]
  {
  }

  /** No page is gone and the ones that are not in `table` keep their bytes. */
  ghost predicate OthersKept(was: map<Page, seq<byte>>, now: map<Page, seq<byte>>, table: seq<Page>) {
    && was.Keys <= now.Keys
    && forall p :: p in was && p !in table ==> now[p] == was[p]
  }

  lemma KeptWhenWritten(was: map<Page, seq<byte>>, table: seq<Page>, i: nat, bytes: seq<byte>)
    requires i < |table| && table[i] in was
    ensures OthersKept(was, was[table[i] := bytes], table)
  {
  }

  lemma KeptAll(was: map<Page, seq<byte>>, table: seq<Page>)
    ensures OthersKept(was, was, table)
  {
  }

  lemma KeptTwice(a: map<Page, seq<byte>>, b: map<Page, seq<byte>>, c: map<Page, seq<byte>>, table: seq<Page>)
    requires OthersKept(a, b, table) && OthersKept(b, c, table)
    ensures OthersKept(a, c, table)
  {
  }

  /** Writing into the frame of one of the segment's pages. */
  method WriteBytes(pager: Pager, seg: Segment, ghost page: nat, f: nat, at: nat, data: seq<byte>, ghost mem: seq<byte>)
    requires Ready(pager, seg, mem) && page < |seg.pageTable| && at + |data| <= pager.pageSize
    requires seg.pageTable[page].isPresent && seg.pageTable[page].fr == f
    requires Start(page, pager.pageSize) + pager.pageSize <= |mem|
    modifies pager.frames, pager`contents
    ensures pager.Modified() == old(pager.Modified())
    ensures Ready(pager, seg, Splice(mem, Start(page, pager.pageSize) + at, data))
            && OthersKept(old(pager.contents), pager.contents, seg.pageTable)
  {
    hide *;
    ReadyFacts(pager, seg, mem);
    ghost var pag := seg.pageTable[page];
    FlatWrite(seg.pageTable, pager.contents, pager.pageSize, page, at, data);
    KeptWhenWritten(pager.contents, seg.pageTable, page, Splice(pager.contents[pag], at, data));
    pager.WriteFrame(f, at, data, pag);
    StillReady(pager, seg, Splice(mem, Start(page, pager.pageSize) + at, data));
  }

  lemma SpliceTwo(mem: seq<byte>, at: nat, e: seq<byte>, k: nat)
    requires at + |e| <= |mem| && k <= |e|
    ensures Splice(Splice(mem, at, e[..k]), at + k, e[k..]) == Splice(mem, at, e)
  {
  }

  /** `modificar_metadata`, writing the first part of a split header before the page of the
      second part is loaded. */
  method StoreHeader(pager: Pager, seg: Segment, addr: nat, h: Header, ghost mem: seq<byte>)
    requires Ready(pager, seg, mem) && addr + META <= |mem| && h.size < WORD
    modifies pager, pager.frames, pager.bitmap, pager.swapFile, pager.bitmapSwap, pager.pages
    ensures pager.Modified() == old(pager.Modified())
    ensures Ready(pager, seg, PutHeader(mem, addr, h)) && OthersKept(old(pager.contents), pager.contents, seg.pageTable)
    ensures pager.segments == old(pager.segments) && pager.pages == old(pager.pages)
  {
    hide *;
    ReadyFacts(pager, seg, mem);
    ghost var was := pager.contents;
    PutIsSplice(mem, addr, h);
    var ps, e := pager.pageSize, EncodeHeader(h);
    var page, off := addr / ps, addr % ps;
    PageOf(addr, META, ps, |seg.pageTable|);
    var _ := LoadPage(pager, seg, page, mem);
    if off + META > ps {
      var k := ps - off;
      WriteBytes(pager, seg, page, seg.pageTable[page].fr, off, e[..k], mem);
      ghost var m, mid := Splice(mem, addr, e[..k]), pager.contents;
      ReadyFacts(pager, seg, m);
      var _ := LoadPage(pager, seg, page + 1, m);
      WriteBytes(pager, seg, page + 1, seg.pageTable[page + 1].fr, 0, e[k..], m);
      SpliceTwo(mem, addr, e, k);
      KeptTwice(was, mid, pager.contents, seg.pageTable);
    } else {
      WriteBytes(pager, seg, page, seg.pageTable[page].fr, off, e, mem);
    }
  }

  /** What is left when the two parts of a split header land in the frame of the second page. */
  function Misplaced(mem: seq<byte>, addr: nat, h: Header, k: nat, ps: nat): (r: seq<byte>)
    requires h.size < WORD && k <= META && addr + ps + k <= |mem| && addr + META <= |mem|
    ensures |r| == |mem|
  {
    Splice(Splice(mem, addr + ps, EncodeHeader(h)[..k]), addr + k, EncodeHeader(h)[k..])
  }

  /** A misplaced header reads back only if its first part was there already, and it changes
      bytes outside the header's place. */
  lemma MisplacedReads(mem: seq<byte>, addr: nat, h: Header, k: nat, ps: nat)
    requires h.size < WORD && 0 < k < META && 4 <= ps && addr + ps + k <= |mem| && addr + META <= |mem|
    ensures var m := Misplaced(mem, addr, h, k, ps);
            && (m[addr..addr + META] == EncodeHeader(h) <==> mem[addr..addr + k] == EncodeHeader(h)[..k])
            && (ps >= META ==> m[addr + ps..addr + ps + k] == EncodeHeader(h)[..k])
  {
    var m, e := Misplaced(mem, addr, h, k, ps), EncodeHeader(h);
    assert m[addr..addr + k] == mem[addr..addr + k];
    assert m[addr + k..addr + META] == e[k..];
    assert m[addr..addr + META] == m[addr..addr + k] + m[addr + k..addr + META];
    assert m[addr..addr + META][..k] == m[addr..addr + k];
    assert e == e[..k] + e[k..];
  }

  lemma MisplacedIs(mem: seq<byte>, addr: nat, h: Header, k: nat, ps: nat)
    requires h.size < WORD && k <= META && addr + ps + k <= |mem| && addr + META <= |mem|
    ensures Misplaced(mem, addr, h, k, ps) ==
            Splice(Splice(mem, addr + ps, EncodeHeader(h)[..k]), addr + k, EncodeHeader(h)[k..])
  {
  }

  /** Whether loading `first` and then `second` takes the frame of `first` again. */
  ghost predicate Loses(pager: Pager, first: Page, second: Page)
    requires pager.Sound()
    reads pager, pager.frames, pager.bitmap, pager.swapFile, pager.bitmapSwap, pager.pages, pager.segments
  {
    pager.Snapshot().LosesFirst(first, second, AllPages(pager.segments), pager.Hand())
  }

  lemma LosesIs(pager: Pager, first: Page, second: Page)
    requires pager.Sound() && first in pager.pages
    ensures pager.Snapshot().Located(first)
    ensures var s, order, hand := pager.Snapshot(), AllPages(pager.segments), pager.Hand();
            && s.Shape() && (!s.FrameFree() ==> s.Replaceable(order, hand)) && first in s.table
            && (Loses(pager, first, second) <==>
               s.Fetch(first, order, hand).Takes(first, second, order, s.HandAfter(first, order, hand)))
  {
    pager.Snapshot().HoldsLocated(pager.contents, pager.pageSize, first);
  }

  /** With a single frame it always does. */
  lemma OneFrameLoses(pager: Pager, first: Page, second: Page)
    requires pager.Sound() && pager.HasRoom() && pager.bitmap.Length == 1
    requires first in pager.pages && second in pager.pages && first != second
    ensures Loses(pager, first, second)
  {
    pager.SoundFacts();
    pager.RoomIs();
    pager.HandInside();
    pager.SnapshotIs();
    var s := pager.Snapshot();
    hide *;
    s.RoomIsSpare(pager.frameOwner, pager.slotOwner);
    s.OneFrameLoses(first, second, AllPages(pager.segments), pager.Hand(), pager.frameOwner, pager.slotOwner);
    LosesWhen(pager, first, second);
  }

  lemma LosesWhen(pager: Pager, first: Page, second: Page)
    requires pager.Sound() && pager.Snapshot().LosesFirst(first, second, AllPages(pager.segments), pager.Hand())
    ensures Loses(pager, first, second)
  {
  }

  /** Both pages of a split header, in the order in which `modificar_metadata` loads them,
      and the frame that the first had when it was loaded. */
  method LoadBoth(pager: Pager, seg: Segment, page: nat, ghost mem: seq<byte>) returns (f: nat, ghost lost: bool)
    requires Ready(pager, seg, mem) && page + 1 < |seg.pageTable|
    modifies pager, pager.frames, pager.bitmap, pager.swapFile, pager.bitmapSwap, pager.pages
    ensures pager.Modified() == old(pager.Modified())
    ensures Ready(pager, seg, mem) && pager.contents == old(pager.contents)
    ensures pager.segments == old(pager.segments) && pager.pages == old(pager.pages)
    ensures lost <==> old(Loses(pager, seg.pageTable[page], seg.pageTable[page + 1]))
    ensures seg.pageTable[page + 1].isPresent
    ensures if lost then seg.pageTable[page + 1].fr == f
            else seg.pageTable[page].isPresent && seg.pageTable[page].fr == f
  {
    hide *;
    ReadyFacts(pager, seg, mem);
    var first, second := seg.pageTable[page], seg.pageTable[page + 1];
    DistinctTwo(seg.pageTable, page);
    LosesIs(pager, first, second);
    pager.SoundFacts();
    ghost var s, order, hand := pager.Snapshot(), AllPages(pager.segments), pager.Hand();
    pager.TableAt(first);
    pager.SnapshotIs();
    s.FetchIs(first, order, hand);
    pager.FetchFrame(first);
    pager.SoundFacts();
    pager.TableAt(first);
    pager.SnapshotIs();
    f := first.fr;
    lost := LoadSecond(pager, first, second);
    StillReady(pager, seg, mem);
  }

  method LoadSecond(pager: Pager, first: Page, second: Page) returns (ghost lost: bool)
    requires pager.Sound() && pager.HasRoom() && first in pager.pages && second in pager.pages && first != second
             && first.isPresent
    modifies pager, pager.frames, pager.bitmap, pager.swapFile, pager.bitmapSwap, pager.pages
    ensures pager.Modified() == old(pager.Modified())
    ensures pager.Sound() && pager.HasRoom() && pager.contents == old(pager.contents)
    ensures pager.segments == old(pager.segments) && pager.pages == old(pager.pages)
    ensures lost <==> old(pager.Snapshot()).Takes(first, second, old(AllPages(pager.segments)), old(pager.Hand()))
    ensures second.isPresent
    ensures if lost then second.fr == old(first.fr) else first.isPresent && first.fr == old(first.fr)
  {
    hide *;
    pager.SoundFacts();
    pager.TableAt(first);
    pager.SnapshotIs();
    ghost var t, order, h := pager.Snapshot(), AllPages(pager.segments), pager.Hand();
    lost := t.Takes(first, second, order, h);
    pager.RoomIs();
    t.RoomIsSpare(pager.frameOwner, pager.slotOwner);
    t.TakesIs(first, second, order, h, pager.frameOwner, pager.slotOwner);
    t.FetchIs(second, order, h);
    pager.TableAt(second);
    pager.FetchFrame(second);
    pager.TableAt(first);
    pager.TableAt(second);
    pager.SnapshotIs();
    pager.RoomIs();
  }

  lemma DistinctTwo(u: seq<Page>, i: nat)
    requires Distinct(u) && i + 1 < |u|
    ensures u[i] != u[i + 1]
  {
  }

  /** `modificar_metadata` as coded: the address of the first page's frame is taken before the
      page of the second part is loaded.  The header, at offset `off` of page `page`, is stored
      exactly unless that load takes this very frame. */
  method StoreHeaderAsCoded(pager: Pager, seg: Segment, addr: nat, h: Header,
                            ghost mem: seq<byte>, ghost page: nat, ghost off: nat) returns (ghost lost: bool)
    requires Ready(pager, seg, mem) && addr + META <= |mem| && h.size < WORD
    requires off < pager.pageSize && addr == Start(page, pager.pageSize) + off
    modifies pager, pager.frames, pager.bitmap, pager.swapFile, pager.bitmapSwap, pager.pages
    ensures pager.Modified() == old(pager.Modified())
    ensures lost <==>
              && off + META > pager.pageSize && page + 1 < |seg.pageTable|
              && old(Loses(pager, seg.pageTable[page], seg.pageTable[page + 1]))
    ensures lost ==> var k := pager.pageSize - off;
                     && 0 < k < META && addr + pager.pageSize + k <= |mem|
                     && Ready(pager, seg, Misplaced(mem, addr, h, k, pager.pageSize))
    ensures !lost ==> Ready(pager, seg, PutHeader(mem, addr, h))
    ensures OthersKept(old(pager.contents), pager.contents, seg.pageTable)
    ensures pager.segments == old(pager.segments) && pager.pages == old(pager.pages)
  {
    hide *;
    ReadyFacts(pager, seg, mem);
    PutIsSplice(mem, addr, h);
    var ps, e := pager.pageSize, EncodeHeader(h);
    PageOf(addr, META, ps, |seg.pageTable|);
    PageIs(page, off, ps);
    lost := false;
    if addr % ps + META <= ps {
      var _ := LoadPage(pager, seg, addr / ps, mem);
      WriteBytes(pager, seg, page, seg.pageTable[addr / ps].fr, addr % ps, e, mem);
    } else {
      lost := StoreSplit(pager, seg, addr / ps, addr % ps, e, mem);
      if lost {
        MisplacedIs(mem, addr, h, ps - off, ps);
      }
    }
  }

  /** The two parts of a header that starts at offset `off` of page `page`. */
  method StoreSplit(pager: Pager, seg: Segment, page: nat, off: nat, e: seq<byte>, ghost mem: seq<byte>)
      returns (ghost lost: bool)
    requires Ready(pager, seg, mem) && page + 1 < |seg.pageTable|
    requires off < pager.pageSize < off + |e| && |e| <= pager.pageSize + 1
             && Start(page + 1, pager.pageSize) == Start(page, pager.pageSize) + pager.pageSize
    modifies pager, pager.frames, pager.bitmap, pager.swapFile, pager.bitmapSwap, pager.pages
    ensures pager.Modified() == old(pager.Modified())
    ensures lost <==> old(Loses(pager, seg.pageTable[page], seg.pageTable[page + 1]))
    ensures var k, at := pager.pageSize - off, Start(page, pager.pageSize) + off;
            && at + pager.pageSize + k <= |mem| && at + |e| <= |mem|
            && Ready(pager, seg, if lost then Splice(Splice(mem, at + pager.pageSize, e[..k]), at + k, e[k..])
               else Splice(mem, at, e))
    ensures OthersKept(old(pager.contents), pager.contents, seg.pageTable)
    ensures pager.segments == old(pager.segments) && pager.pages == old(pager.pages)
  {
    hide *;
    ReadyFacts(pager, seg, mem);
    var ps := pager.pageSize;
    var f;
    f, lost := LoadBoth(pager, seg, page, mem);
    EndsInside(page + 1, ps, |seg.pageTable|);
    var k, next := ps - off, seg.pageTable[page + 1];
    EndsInside(page, ps, |seg.pageTable|);
    WriteBoth(pager, seg, if lost then page + 1 else page, f, off, e[..k], page + 1, next.fr, e[k..], mem);
    if !lost {
      SpliceTwo(mem, Start(page, ps) + off, e, k);
    }
  }

  /** `one` into frame `f`, which holds page `owner`, and then `two` at the start of page
      `next`, which is in frame `g`. */
  method WriteBoth(pager: Pager, seg: Segment, ghost owner: nat, f: nat, off: nat, one: seq<byte>, ghost next: nat,
                   g: nat, two: seq<byte>,
                   ghost mem: seq<byte>)
    requires Ready(pager, seg, mem) && owner < |seg.pageTable| && next < |seg.pageTable|
    requires off + |one| <= pager.pageSize && |two| <= pager.pageSize
    requires seg.pageTable[owner].isPresent && seg.pageTable[owner].fr == f
    requires seg.pageTable[next].isPresent && seg.pageTable[next].fr == g
    requires Start(owner, pager.pageSize) + pager.pageSize <= |mem|
             && Start(next, pager.pageSize) + pager.pageSize <= |mem|
    modifies pager.frames, pager`contents
    ensures pager.Modified() == old(pager.Modified())
    ensures Ready(pager, seg,
            Splice(Splice(mem, Start(owner, pager.pageSize) + off, one), Start(next, pager.pageSize), two))
    ensures OthersKept(old(pager.contents), pager.contents, seg.pageTable)
  {
    hide *;
    ghost var was := pager.contents;
    WriteBytes(pager, seg, owner, f, off, one, mem);
    ghost var mid := pager.contents;
    ReadyFacts(pager, seg, Splice(mem, Start(owner, pager.pageSize) + off, one));
    WriteBytes(pager, seg, next, g, 0, two, Splice(mem, Start(owner, pager.pageSize) + off, one));
    KeptTwice(was, mid, pager.contents, seg.pageTable);
  }

  lemma EndsInside(page: nat, ps: nat, n: nat)
    requires page < n
    ensures Start(page, ps) + ps <= Start(n, ps)
  {
    MulMono(page + 1, n, ps);
  }

  // ---- walks ----

  /** The state between the accesses of a walk. */
  ghost predicate Walkable(pager: Pager, seg: Segment, mem: seq<byte>, b: seq<Block>)
    reads pager, pager.frames, pager.bitmap, pager.swapFile, pager.bitmapSwap, pager.pages, pager.segments, seg
  {
    Ready(pager, seg, mem) && seg.limit == |mem| < WORD && Tiled(mem, b) && b != []
  }

  lemma WalkableIs(pager: Pager, seg: Segment, mem: seq<byte>, b: seq<Block>)
    ensures Walkable(pager, seg, mem, b) <==>
            Ready(pager, seg, mem) && seg.limit == |mem| < WORD && Tiled(mem, b) && b != []
    ensures META == 5
  {
  }

  /** `ultima_metadata_segmento`: the address of the last header. */
  method LastHeader(pager: Pager, seg: Segment, addr: nat, ghost mem: seq<byte>, ghost b: seq<Block>, ghost i: nat)
      returns (last: nat)
    requires Walkable(pager, seg, mem, b) && i < |b| && b[i].addr == addr
    modifies pager, pager.frames, pager.bitmap, pager.swapFile, pager.bitmapSwap, pager.pages
    ensures pager.Modified() == old(pager.Modified())
    ensures Walkable(pager, seg, mem, b) && pager.contents == old(pager.contents)
    ensures pager.segments == old(pager.segments) && pager.pages == old(pager.pages)
    ensures last == b[|b| - 1].addr
    decreases |b| - i
  {
    hide *;
    WalkableIs(pager, seg, mem, b);
    TiledStep(mem, b, i);
    var h := LoadHeader(pager, seg, addr, mem);
    WalkableIs(pager, seg, mem, b);
    var next := h.size + META + addr;
    if next == seg.limit {
      last := addr;
    } else {
      last := LastHeader(pager, seg, next, mem, b, i + 1);
    }
  }

  /** `proxima_metadata_libre_con_size`. */
  method FindFit(pager: Pager, seg: Segment, addr: nat, need: nat, ghost mem: seq<byte>, ghost b: seq<Block>,
                 ghost i: nat) returns (r: int)
    requires Walkable(pager, seg, mem, b) && i < |b| && b[i].addr == addr
    modifies pager, pager.frames, pager.bitmap, pager.swapFile, pager.bitmapSwap, pager.pages
    ensures pager.Modified() == old(pager.Modified())
    ensures Walkable(pager, seg, mem, b) && pager.contents == old(pager.contents)
    ensures pager.segments == old(pager.segments) && pager.pages == old(pager.pages)
    ensures var k := SearchFit(b, i, need); r == if k == |b| then -1 else b[k].addr
    decreases |b| - i
  {
    hide *;
    WalkableIs(pager, seg, mem, b);
    TiledStep(mem, b, i);
    SearchFitIs(b, i, need);
    var h := LoadHeader(pager, seg, addr, mem);
    WalkableIs(pager, seg, mem, b);
    var last := LastHeader(pager, seg, 0, mem, b, 0);
    if addr == last {
      return if h.size >= need then addr else -1;
    }
    var next := h.size + META + addr;
    TiledStep(mem, b, i + 1);
    if last == next {
      WalkableIs(pager, seg, mem, b);
      var end := LoadHeader(pager, seg, next, mem);
      WalkableIs(pager, seg, mem, b);
      return if end.free && end.size >= need then next else -1;
    }
    if h.free && h.size >= need {
      return addr;
    }
    r := FindFit(pager, seg, next, need, mem, b, i + 1);
  }

  /** `proxima_metadata_libre`, as coded or with the guard on the last but one block. */
  method FindFree(pager: Pager, seg: Segment, addr: nat, guarded: bool, ghost mem: seq<byte>, ghost b: seq<Block>,
                  ghost i: nat) returns (r: int)
    requires Walkable(pager, seg, mem, b) && i < |b| && b[i].addr == addr && (i + 1 == |b| ==> b[i].free)
    modifies pager, pager.frames, pager.bitmap, pager.swapFile, pager.bitmapSwap, pager.pages
    ensures pager.Modified() == old(pager.Modified())
    ensures Walkable(pager, seg, mem, b) && pager.contents == old(pager.contents)
    ensures pager.segments == old(pager.segments) && pager.pages == old(pager.pages)
    ensures var k := SearchFree(b, i, guarded); r == if k == |b| then -1 else b[k].addr
    decreases |b| - i
  {
    hide *;
    WalkableIs(pager, seg, mem, b);
    TiledStep(mem, b, i);
    SearchFreeIs(b, i, guarded);
    var h := LoadHeader(pager, seg, addr, mem);
    WalkableIs(pager, seg, mem, b);
    var last := LastHeader(pager, seg, 0, mem, b, 0);
    var next := h.size + META + addr;
    if i + 1 < |b| {
      TiledStep(mem, b, i + 1);
    }
    if last == next {
      WalkableIs(pager, seg, mem, b);
      var end := LoadHeader(pager, seg, next, mem);
      WalkableIs(pager, seg, mem, b);
      return if end.free && (guarded ==> h.free) then addr else -1;
    }
    if h.free {
      return addr;
    }
    r := FindFree(pager, seg, next, guarded, mem, b, i + 1);
  }

  // ---- compaction ----

  /** No byte of a payload in use changed. */
  ghost predicate PayloadsKept(was: seq<byte>, now: seq<byte>, b: seq<Block>) {
    && |was| <= |now|
    && forall j, a :: 0 <= j < |b| && !b[j].free && b[j].Payload() <= a < b[j].End() <= |was| ==> now[a] == was[a]
  }

  lemma PayloadsSame(mem: seq<byte>, b: seq<Block>)
    ensures PayloadsKept(mem, mem, b)
  {
  }

  lemma PayloadsTwice(x: seq<byte>, y: seq<byte>, z: seq<byte>, b: seq<Block>, c: seq<Block>)
    requires PayloadsKept(x, y, b) && PayloadsKept(y, z, c)
    requires forall j :: 0 <= j < |b| && !b[j].free ==> b[j] in c
    ensures PayloadsKept(x, z, b)
  {
    forall j, a | 0 <= j < |b| && !b[j].free && b[j].Payload() <= a < b[j].End() <= |x| ensures z[a] == x[a] {
      var k :| 0 <= k < |c| && c[k] == b[j];
      assert z[a] == y[a];
    }
  }

  /** Writing over headers changes no payload. */
  lemma PayloadsPut(mem: seq<byte>, b: seq<Block>, i: nat, h: Header)
    requires Tiled(mem, b) && i < |b| && h.size < WORD && b[i].addr + META <= |mem|
    ensures PayloadsKept(mem, PutHeader(mem, b[i].addr, h), b)
  {
    TilesOrder(b, 0, |mem|, i);
    forall j | 0 <= j < |b| ensures j < i ==> b[j].End() <= b[i].addr {
      TilesOrder(b, 0, |mem|, j);
    }
  }

  /** Block i + 1 joined to block i. */
  function Absorbed(b: seq<Block>, i: nat): (r: seq<Block>)
    requires i + 1 < |b|
    ensures |r| == |b| - 1
  {
    b[..i] + [Join(b[i], b[i + 1])] + b[i + 2..]
  }

  lemma AbsorbedIs(b: seq<Block>, i: nat, guarded: bool)
    requires i + 1 < |b| && b[i + 1].free && (b[i].free || (!guarded && i + 2 == |b|))
    ensures var c := Absorbed(b, i);
            && |c| == |b| - 1 && c[i] == Join(b[i], b[i + 1]) ==
               Block(b[i].addr, b[i].size + META + b[i + 1].size, b[i].free)
            && c[..i] + Compact(c[i..], guarded) == b[..i] + Compact(b[i..], guarded)
            && (b[i].free ==> forall j :: 0 <= j < |b| && !b[j].free ==> b[j] in c)
            && (i + 2 < |b| ==> i + 1 < |c| && c[i + 1] == b[i + 2])
  {
    var c := Absorbed(b, i);
    assert c[..i] == b[..i];
    assert b[i..][2..] == b[i + 2..];
    assert c[i..] == [Join(b[i], b[i + 1])] + b[i..][2..];
    CompactJoin(b[i..], guarded);
    forall j | 0 <= j < |b| && !b[j].free && b[i].free ensures b[j] in c {
      assert b[j] == c[if j < i then j else j - 1];
    }
  }

  lemma AbsorbPut(mem: seq<byte>, b: seq<Block>, i: nat)
    requires Tiled(mem, b) && i + 1 < |b| && |mem| < WORD
    ensures b[i].addr + META <= |mem| && b[i + 1].addr + META <= |mem|
    ensures b[i].size + b[i + 1].size + META < WORD && b[i + 1].size < WORD
    ensures var m := PutHeader(mem, b[i].addr, Header(b[i].size + b[i + 1].size + META, b[i].free));
            var n := PutHeader(m, b[i + 1].addr, Header(b[i + 1].size, true));
            Tiled(n, Absorbed(b, i)) && PayloadsKept(mem, n, b)
  {
    hide *;
    TiledStep(mem, b, i);
    TiledStep(mem, b, i + 1);
    var c := Join(b[i], b[i + 1]);
    JoinIs(b[i], b[i + 1]);
    var h, g := Header(c.size, c.free), Header(b[i + 1].size, true);
    PutCovering(mem, b, i, i + 2, c);
    var m := PutHeader(mem, b[i].addr, h);
    PutIsSplice(m, b[i + 1].addr, g);
    AbsorbedAt(b, i);
    WriteInside(m, Absorbed(b, i), i, b[i + 1].addr, EncodeHeader(g));
    PayloadsPut(mem, b, i, h);
    PayloadsPutNext(mem, m, b, i + 1, g);
  }

  lemma JoinIs(a: Block, b: Block)
    ensures Join(a, b) == Block(a.addr, a.size + b.size + META, a.free)
    ensures Join(a, b).End() == a.addr + META + a.size + b.size + META && Join(a, b).Payload() == a.addr + META
    ensures b.End() == b.addr + META + b.size && META == 5
  {
  }

  lemma AbsorbedAt(b: seq<Block>, i: nat)
    requires i + 1 < |b|
    ensures Absorbed(b, i) == b[..i] + [Join(b[i], b[i + 1])] + b[i + 2..] && Absorbed(b, i)[i] == Join(b[i], b[i + 1])
  {
  }

  lemma PayloadsPutNext(mem: seq<byte>, m: seq<byte>, b: seq<Block>, i: nat, h: Header)
    requires Tiled(mem, b) && i < |b| && h.size < WORD && b[i].addr + META <= |mem|
    requires PayloadsKept(mem, m, b)
    ensures PayloadsKept(mem, PutHeader(m, b[i].addr, h), b)
  {
    PayloadsPut(mem, b, i, h);
    var n := PutHeader(m, b[i].addr, h);
    forall j, a | 0 <= j < |b| && !b[j].free && b[j].Payload() <= a < b[j].End() <= |mem| ensures n[a] == mem[a] {
      assert PutHeader(mem, b[i].addr, h)[a] == mem[a];
      TilesOrder(b, 0, |mem|, i);
      TilesOrder(b, 0, |mem|, j);
    }
  }

  /** The two `modificar_metadata` calls by which compaction joins a free block to the one
      before it: the first header covers both, the second is rewritten and becomes payload. */
  method Absorb(pager: Pager, seg: Segment, addr: nat, next: nat, h: Header, n: Header, ghost mem: seq<byte>,
                ghost b: seq<Block>, ghost i: nat)
    returns (ghost m: seq<byte>)
    requires Walkable(pager, seg, mem, b) && i + 1 < |b| && addr == b[i].addr && next == b[i + 1].addr
    requires h == Header(b[i].size, b[i].free) && n.size == b[i + 1].size
    modifies pager, pager.frames, pager.bitmap, pager.swapFile, pager.bitmapSwap, pager.pages
    ensures pager.Modified() == old(pager.Modified())
    ensures Walkable(pager, seg, m, Absorbed(b, i)) && PayloadsKept(mem, m, b)
    ensures OthersKept(old(pager.contents), pager.contents, seg.pageTable)
    ensures pager.segments == old(pager.segments) && pager.pages == old(pager.pages)
  {
    hide *;
    WalkableIs(pager, seg, mem, b);
    AbsorbPut(mem, b, i);
    ghost var was := pager.contents;
    StoreHeader(pager, seg, addr, Header(h.size + n.size + META, h.free), mem);
    ghost var mid := pager.contents;
    m := PutHeader(mem, addr, Header(h.size + n.size + META, h.free));
    StoreHeader(pager, seg, next, Header(n.size, true), m);
    m := PutHeader(m, next, Header(n.size, true));
    KeptTwice(was, mid, pager.contents, seg.pageTable);
    AbsorbedAt(b, i);
    WalkableIs(pager, seg, m, Absorbed(b, i));
  }

  /** `compactar_en_segmento`: from the block at `addr`, which is free (or, as coded, the last
      but one), every run of free blocks is joined. */
  method CompactFrom(pager: Pager, seg: Segment, addr: nat, next: nat, guarded: bool, ghost mem: seq<byte>,
                     ghost b: seq<Block>, ghost i: nat)
    returns (ghost m: seq<byte>)
    requires Walkable(pager, seg, mem, b) && i + 1 < |b| && addr == b[i].addr && next == b[i + 1].addr
    requires b[i].free || (!guarded && i + 2 == |b|)
    modifies pager, pager.frames, pager.bitmap, pager.swapFile, pager.bitmapSwap, pager.pages
    ensures pager.Modified() == old(pager.Modified())
    ensures Walkable(pager, seg, m, b[..i] + Compact(b[i..], guarded)) && PayloadsKept(mem, m, b)
    ensures OthersKept(old(pager.contents), pager.contents, seg.pageTable)
    ensures pager.segments == old(pager.segments) && pager.pages == old(pager.pages)
    decreases |b| - i
  {
    hide *;
    ghost var was := pager.contents;
    WalkableIs(pager, seg, mem, b);
    TiledStep(mem, b, i);
    TiledStep(mem, b, i + 1);
    PayloadsSame(mem, b);
    KeptAll(was, seg.pageTable);
    var h := LoadHeader(pager, seg, addr, mem);
    WalkableIs(pager, seg, mem, b);
    var last := LastHeader(pager, seg, 0, mem, b, 0);
    WalkableIs(pager, seg, mem, b);
    var n := LoadHeader(pager, seg, next, mem);
    WalkableIs(pager, seg, mem, b);
    m := mem;
    if next == last {
      if n.free {
        AbsorbedIs(b, i, guarded);
        m := Absorb(pager, seg, addr, next, h, n, mem, b, i);
        EndsWith(Absorbed(b, i), i, guarded);
      } else {
        StopsAt(b, i, guarded);
      }
    } else if n.free {
      AbsorbedIs(b, i, guarded);
      TiledStep(mem, b, i + 2);
      ghost var c := Absorbed(b, i);
      m := Absorb(pager, seg, addr, next, h, n, mem, b, i);
      ghost var mid, x := pager.contents, m;
      m := CompactFrom(pager, seg, addr, next + n.size + META, guarded, m, c, i);
      KeptTwice(was, mid, pager.contents, seg.pageTable);
      PayloadsTwice(mem, x, m, b, c);
    } else {
      var r := FindFree(pager, seg, next, guarded, mem, b, i + 1);
      SearchFreeIs(b, i + 1, guarded);
      ghost var k := SearchFree(b, i + 1, guarded);
      SkipsTo(b, i, guarded);
      if r != -1 {
        TiledStep(mem, b, k);
        if last != r {
          WalkableIs(pager, seg, mem, b);
          h := LoadHeader(pager, seg, r, mem);
          WalkableIs(pager, seg, mem, b);
          m := CompactFrom(pager, seg, r, r + h.size + META, guarded, mem, b, k);
        }
      }
    }
  }

  lemma EndsWith(b: seq<Block>, i: nat, guarded: bool)
    requires i + 1 == |b|
    ensures b[..i] + Compact(b[i..], guarded) == b
  {
    CompactOne(b[i..], guarded);
  }

  lemma StopsAt(b: seq<Block>, i: nat, guarded: bool)
    requires i + 2 == |b| && !b[i + 1].free
    ensures b[..i] + Compact(b[i..], guarded) == b
  {
    CompactStep(b[i..], guarded);
    CompactOne(b[i..][1..], guarded);
  }

  /** Past a block in use, compaction goes on where `proxima_metadata_libre` stops. */
  lemma SkipsTo(b: seq<Block>, i: nat, guarded: bool)
    requires i + 2 < |b| && !b[i + 1].free
    ensures var k := SearchFree(b, i + 1, guarded);
            b[..i] + Compact(b[i..], guarded) == if k == |b| then b else b[..k] + Compact(b[k..], guarded)
    ensures SearchFree(b, i + 1, guarded) + 1 == |b| ==> b[..|b| - 1] + Compact(b[|b| - 1..], guarded) == b
  {
    hide *;
    SearchFreeIs(b, i + 1, guarded);
    var k := SearchFree(b, i + 1, guarded);
    var c := b[i..];
    CompactStep(c, guarded);
    assert c[1..] == b[i + 1..];
    CompactSkips(b, i + 1, guarded);
    EndsWith(b, |b| - 1, guarded);
    if k < |b| {
      Regroup(b, i, k, Compact(b[k..], guarded));
    } else {
      Regroup(b, i, k, []);
    }
  }

  lemma Regroup(b: seq<Block>, i: nat, k: nat, r: seq<Block>)
    requires i < k <= |b|
    ensures b[..i] + ([b[i]] + (b[i + 1..k] + r)) == b[..k] + r
    ensures b[..i] + ([b[i]] + b[i + 1..k]) == b[..k]
    ensures k == |b| ==> b[i + 1..k] == b[i + 1..] && b[..k] == b
  {
    assert b[..k] == b[..i] + [b[i]] + b[i + 1..k];
  }

  /** `compactar_espacios_libres` on one segment. */
  method CompactSegment(pager: Pager, seg: Segment, guarded: bool, ghost mem: seq<byte>, ghost b: seq<Block>)
      returns (ghost m: seq<byte>)
    requires Walkable(pager, seg, mem, b) && (|b| == 1 ==> b[0].free)
    modifies pager, pager.frames, pager.bitmap, pager.swapFile, pager.bitmapSwap, pager.pages
    ensures pager.Modified() == old(pager.Modified())
    ensures Walkable(pager, seg, m, Compact(b, guarded)) && PayloadsKept(mem, m, b)
    ensures OthersKept(old(pager.contents), pager.contents, seg.pageTable)
    ensures pager.segments == old(pager.segments) && pager.pages == old(pager.pages)
  {
    hide *;
    ghost var was := pager.contents;
    WalkableIs(pager, seg, mem, b);
    TiledStep(mem, b, 0);
    PayloadsSame(mem, b);
    KeptAll(was, seg.pageTable);
    var last := LastHeader(pager, seg, 0, mem, b, 0);
    var r := FindFree(pager, seg, 0, guarded, mem, b, 0);
    ghost var k := SearchFree(b, 0, guarded);
    SearchFreeIs(b, 0, guarded);
    StartsAt(b, guarded);
    m := mem;
    if r != -1 {
      TiledStep(mem, b, k);
      WalkableIs(pager, seg, mem, b);
      var h := LoadHeader(pager, seg, r, mem);
      WalkableIs(pager, seg, mem, b);
      if r != last {
        m := CompactFrom(pager, seg, r, h.size + META + r, guarded, mem, b, k);
      }
    }
  }

  lemma StartsAt(b: seq<Block>, guarded: bool)
    requires b != [] && (|b| == 1 ==> b[0].free)
    ensures var k := SearchFree(b, 0, guarded);
            Compact(b, guarded) == if k == |b| then b else b[..k] + Compact(b[k..], guarded)
    ensures SearchFree(b, 0, guarded) + 1 == |b| ==> Compact(b, guarded) == b
  {
    hide Compact, SearchFree;
    CompactSkips(b, 0, guarded);
    SearchFreeIs(b, 0, guarded);
    assert b[0..] == b;
    EndsWith(b, |b| - 1, guarded);
  }
}
