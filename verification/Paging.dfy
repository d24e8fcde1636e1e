/** The imperative pager: frames, swap file and bitmaps as arrays, page records updated in
    place.  Every method is tied to the operation of `PageStore.Store` it carries out. */
module Paging {
  import opened ClockPolicy
  import opened Bytes
  import opened Sequences
  import opened Pages
  import opened PageStore

  ghost function EntryOf(p: Page): Entry
    reads p
  {
    Entry(p.isPresent, p.isUsed, p.isModify, p.fr)
  }

  class Pager {
    const pageSize: nat
    const frames: array<seq<byte>>
    const bitmap: array<bool>       // true while the frame is free
    const swapFile: array<seq<byte>>
    const bitmapSwap: array<bool>   // true while the slot is free
    var segments: seq<Segment>      // what lista_de_segmentos() returns
    var segmentoClock: nat
    var paginaClock: nat

    ghost var pages: set<Page>
    ghost var contents: map<Page, seq<byte>>
    ghost var frameOwner: seq<Page?>
    ghost var slotOwner: seq<Page?>

    ghost function Table(): map<Page, Entry>
      reads `pages, pages
    {
      map p | p in pages :: EntryOf(p)
    }

    ghost function Snapshot(): Store
      reads `pages, frames, bitmap, swapFile, bitmapSwap, pages
    {
      Store(frames[..], bitmap[..], swapFile[..], bitmapSwap[..], Table())
    }

    /** The arrays agree, frames and slots are owned as `Store.OwnedBy` says, and `contents`
        is what each page holds. */
    ghost predicate Valid()
      reads this, frames, bitmap, swapFile, bitmapSwap, pages
    {
      && pageSize >= 4 && bitmap.Length >= 1
      && bitmap != bitmapSwap && frames != swapFile
      && Snapshot().OwnedBy(frameOwner, slotOwner)
      && Snapshot().Holds(contents, pageSize)
    }

    /** The page tables list exactly the live pages, each once, and the clock hand is on one
        of the segments. */
    ghost predicate Listed()
      reads `pages, `segments, `segmentoClock, segments
    {
      && Enumerates(AllPages(segments), pages)
      && Distinct(segments)
      && (if segments == [] then segmentoClock == 0 else segmentoClock < |segments|)
    }

    /** The state between requests: valid, all pages listed and, when memory is full, a page
        for the clock to take (which `SoundWhenListed` derives from the rest). */
    ghost predicate Sound()
      reads this, frames, bitmap, swapFile, bitmapSwap, pages, segments
    {
      Valid() && Listed() && Workable()
    }

    /** A frame or a swap slot is free. */
    ghost predicate HasRoom()
      reads `pages
    {
      |pages| < bitmap.Length + bitmapSwap.Length
    }

    ghost predicate Workable()
      requires segments != [] ==> segmentoClock < |segments|
      reads this, frames, bitmap, swapFile, bitmapSwap, pages, segments
    {
      && Snapshot().Shape() && Snapshot().Lists(AllPages(segments))
      && (!Snapshot().FrameFree() ==> segments != [] && Snapshot().Replaceable(AllPages(segments), Hand()))
    }

    /** Where the next sweep starts in `AllPages(segments)`: just after the last victim. */
    ghost function Hand(): (h: nat)
      requires segments != [] ==> segmentoClock < |segments|
      reads `segments, `segmentoClock, `paginaClock, segments
      ensures h <= |AllPages(segments)|
    {
      if segments == [] then 0 else
      AllPagesSlice(segments, segmentoClock);
      var n := |segments[segmentoClock].pageTable|;
      |AllPages(segments[..segmentoClock])| + if paginaClock + 1 < n then paginaClock + 1 else n
    }

    constructor (memorySize: nat, pageSize: nat, swapSize: nat)
      requires 4 <= pageSize <= memorySize
      ensures Valid() && Listed() && pages == {} && segments == []
      ensures this.pageSize == pageSize
      ensures bitmap.Length == memorySize / pageSize && bitmapSwap.Length == swapSize / pageSize
      ensures fresh(frames) && fresh(bitmap) && fresh(swapFile) && fresh(bitmapSwap)
    {
      this.pageSize := pageSize;
      var f, s := memorySize / pageSize, swapSize / pageSize;
      var zero := seq(pageSize, i => 0 as byte);
      frames := new seq<byte>[f](i => zero);
      bitmap := new bool[f](i => true);
      swapFile := new seq<byte>[s](i => zero);
      bitmapSwap := new bool[s](i => true);
      segments, segmentoClock, paginaClock := [], 0, 0;
      pages, contents := {}, map[];
      frameOwner, slotOwner := seq(f, i => null), seq(s, i => null);
    }

    /** The counts of `number_of_free_frames_upcm` and `number_of_free_frames`. */
    method CountFree(bits: array<bool>) returns (n: nat)
      ensures n == CountTrue(bits[..])
    {
      n := 0;
      for i := 0 to bits.Length
        invariant n == CountTrue(bits[..i])
      {
        assert bits[..i + 1][..i] == bits[..i];
        n := n + if bits[i] then 1 else 0;
      }
      assert bits[..bits.Length] == bits[..];
    }

    /** `frame_swap_libre`: takes the lowest free swap slot. */
    method TakeSwapSlot() returns (slot: int)
      modifies bitmapSwap
      ensures old(FirstTrue(bitmapSwap[..])) == bitmapSwap.Length ==>
              slot == -1 && bitmapSwap[..] == old(bitmapSwap[..])
      ensures old(FirstTrue(bitmapSwap[..])) < bitmapSwap.Length ==>
                slot == old(FirstTrue(bitmapSwap[..])) && bitmapSwap[..] == old(bitmapSwap[..])[slot := false]
    {
      for i := 0 to bitmapSwap.Length
        invariant forall j :: 0 <= j < i ==> !bitmapSwap[j]
        invariant bitmapSwap[..] == old(bitmapSwap[..])
      {
        if bitmapSwap[i] {
          assert bitmapSwap[..][i];
          bitmapSwap[i] := false;
          return i;
        }
      }
      return -1;
    }

    /** `se_hace_la_vistima` and `mandar_al_archivo_swap_toda_la_pagina_que_esta_en`. */
    method Evict(pag: Page) returns (frame: nat)
      requires Snapshot().Shape() && pag in pages && pag.fr < bitmap.Length
      requires bitmap != bitmapSwap && frames != swapFile
      modifies pag, bitmap, bitmapSwap, swapFile
      ensures frame == old(pag.fr)
      ensures Snapshot() == old(Snapshot().Evict(pag))
    {
      hide *;
      ghost var s := Snapshot();
      SnapshotIs();
      TableAt(pag);
      s.ShapeIs();
      frame := pag.fr;
      bitmap[frame] := true;
      var slot := TakeSwapSlot();
      if slot != -1 {
        swapFile[slot] := frames[frame];
        MoveOut(pag, slot);
      }
      SnapshotIs();
      s.EvictIs(pag, Snapshot());
    }

    method MoveOut(pag: Page, slot: nat)
      requires pag in pages
      modifies pag`fr, pag`isPresent
      ensures Table() == old(Table())[pag := old(Table())[pag].(present := false, fr := slot)]
    {
      pag.fr := slot;
      pag.isPresent := false;
    }

    lemma TableAt(p: Page)
      requires p in pages
      ensures p in Table() && Table()[p] == Entry(p.isPresent, p.isUsed, p.isModify, p.fr)
    {
    }

    lemma ModifiedBits()
      ensures forall p :: p in pages ==> p in Snapshot().table && Snapshot().table[p].modified == p.isModify
    {
    }

    /** The pages whose M bit is set. */
    ghost function Modified(): set<Page>
      reads `pages, pages
    {
      set p | p in pages && p.isModify
    }

    lemma ModifiedInTable()
      ensures Modified() <= Table().Keys && forall p :: p in Table() ==> (p in Modified() <==> Table()[p].modified)
      ensures Snapshot().table == Table()
    {
    }

    twostate lemma SameModified()
      requires pages == old(pages) && forall p :: p in pages ==> p.isModify == old(p.isModify)
      ensures Modified() == old(Modified())
    {
    }

    twostate lemma MoreModified(pag: Page)
      requires pages == old(pages) && pag in pages && pag.isModify
      requires forall p :: p in pages && p != pag ==> p.isModify == old(p.isModify)
      ensures Modified() == old(Modified()) + {pag}
    {
    }

    lemma TableKeys()
      ensures Table().Keys == pages
    {
    }

    lemma SnapshotIs()
      ensures Snapshot() == Store(frames[..], bitmap[..], swapFile[..], bitmapSwap[..], Table())
    {
    }

    method ClearU(pag: Page)
      requires pag in pages
      modifies pag`isUsed
      ensures Table() == old(Table())[pag := old(Table())[pag].(used := false)]
    {
      pag.isUsed := false;
    }

    /** The part of a sweep inside one page table, whose pages sit at `off` in the order. */
    method SweepTable(m: bool, table: seq<Page>, p0: nat, ghost snap: Store, ghost order: seq<Page>, ghost off: nat)
      returns (found: bool, p: nat)
      requires snap.Lists(order) && off + |table| <= |order| && order[off..off + |table|] == table
      requires p0 <= |table| && snap.table.Keys == pages
      requires Table() == if m then snap.ClearUsed(order[..off + p0]).table else snap.table
      modifies pages`isUsed
      ensures p0 <= p <= |table|
      ensures Table() == if m then snap.ClearUsed(order[..off + p]).table else snap.table
      ensures var bits := snap.BitsOf(order);
              && (forall i :: off + p0 <= i < off + p ==> !(bits[i].present && !bits[i].used && bits[i].modified == m))
              && (if found then p < |table| && bits[off + p].present && !bits[off + p].used
                 && bits[off + p].modified == m
                  else p == |table|)
    {
      hide Table, Store.ClearUsed;
      ghost var bits := snap.BitsOf(order);
      p := p0;
      while p < |table|
        invariant p0 <= p <= |table|
        invariant Table() == if m then snap.ClearUsed(order[..off + p]).table else snap.table
        invariant forall i :: off + p0 <= i < off + p ==> !(bits[i].present && !bits[i].used && bits[i].modified == m)
      {
        var pag := table[p];
        assert pag == order[off + p];
        snap.ClearUsedStep(order, off + p);
        TableAt(pag);
        if pag.isPresent {
          if !pag.isUsed && pag.isModify == m {
            return true, p;
          }
          if m {
            ClearU(pag);
          }
        }
        p := p + 1;
      }
      return false, p;
    }

    /** One sweep of the clock from segment `s0`, page `p0`: with `m` false it looks for
        (U,M) = (0,0) and changes nothing, with `m` true for (0,1), clearing U bits. */
    method Sweep(m: bool, s0: nat, p0: nat, ghost snap: Store, ghost from: nat)
      returns (found: bool, s: nat, p: nat)
      requires snap.table.Keys == pages && Table() == snap.table && snap.Lists(AllPages(segments))
      requires m ==> from == 0
      requires s0 <= |segments| && from <= |AllPages(segments)|
      requires if s0 == |segments| then from == |AllPages(segments)|
               else p0 <= |segments[s0].pageTable| && from == |AllPages(segments[..s0])| + p0
      modifies pages`isUsed
      ensures var order := AllPages(segments);
              var k := Scan(snap.BitsOf(order), from, m);
              && Table() == (if m then snap.ClearUsed(order[..k]).table else snap.table)
              && (found <==> k < |order|)
              && (found ==> s < |segments| && p < |segments[s].pageTable| && segments[s].pageTable[p] == order[k])
              && (found ==> s < |segments| && k == |AllPages(segments[..s])| + p)
    {
      hide *;
      ghost var order := AllPages(segments);
      snap.ListsFacts(order);
      ghost var bits := snap.BitsOf(order);
      ghost var k := from;
      snap.ClearUsedNone();
      assert order[..0] == [];
      s, p, found := s0, p0, false;
      while s < |segments|
        invariant s <= |segments| && from <= k <= |order|
        invariant if s == |segments| then k == |order|
                  else p <= |segments[s].pageTable| && k == |AllPages(segments[..s])| + p
        invariant Table() == if m then snap.ClearUsed(order[..k]).table else snap.table
        invariant forall i :: from <= i < k ==> !(bits[i].present && !bits[i].used && bits[i].modified == m)
      {
        ghost var off := |AllPages(segments[..s])|;
        AllPagesSlice(segments, s);
        found, p := SweepTable(m, segments[s].pageTable, p, snap, order, off);
        k := off + p;
        if found {
          assert segments[s].pageTable[p] == order[off..off + |segments[s].pageTable|][p];
          ScanIs(bits, from, m, k);
          return;
        }
        s, p := s + 1, 0;
      }
      ScanIs(bits, from, m, k);
    }

    lemma StartSweeps(order: seq<Page>, start: nat, p: nat)
      requires segmentoClock < |segments| && order == AllPages(segments) && start == Hand()
      requires Snapshot().Lists(order)
      requires var n := |segments[segmentoClock].pageTable|; p == if paginaClock + 1 < n then paginaClock + 1 else n
      ensures start == |AllPages(segments[..segmentoClock])| + p
      ensures AllPages(segments[..0]) == []
      ensures Table() == Snapshot().BeforeSweep(order, 0).table && Snapshot().table.Keys == pages
      ensures start <= |order| && (forall i :: 0 <= i < |order| ==> order[i] in Snapshot().table)
              && Missed(Snapshot().BitsOf(order), start, 0)
    {
    }

    /** Sweeps of alternating kind until one finds a victim, at most four of them. */
    method FindVictim(ghost order: seq<Page>, ghost start: nat) returns (s: nat, p: nat)
      requires segmentoClock < |segments|
      requires order == AllPages(segments) && start == Hand()
      requires Snapshot().Lists(order) && Snapshot().Replaceable(order, start)
      modifies pages`isUsed
      ensures s < |segments| && p < |segments[s].pageTable|
      ensures segments[s].pageTable[p] == old(Snapshot()).Victim(order, start)
      ensures |AllPages(segments[..s])| + p == Choose(old(Snapshot()).BitsOf(order), start).victim
      ensures Table() == old(Snapshot()).ClockPass(order, start).table
    {
      hide *;
      ghost var snap := Snapshot();
      s, p := segmentoClock, paginaClock + 1;
      if p > |segments[s].pageTable| {
        p := |segments[s].pageTable|;
      }
      StartSweeps(order, start, p);
      ghost var bits := snap.BitsOf(order);
      var m := false;
      ghost var n: nat := 0;
      while true
        invariant n < 4 && m == (n % 2 == 1) && Missed(bits, start, n)
        invariant Table() == snap.BeforeSweep(order, n).table
        invariant if n == 0 then s < |segments| && p <= |segments[s].pageTable|
                  && start == |AllPages(segments[..s])| + p
                  else s == p == 0
        decreases 4 - n
      {
        ghost var from := SweepFrom(start, n);
        SweepFromIs(start, n);
        snap.SweepLeads(order, start, n);
        snap.BeforeSweepLists(order, n);
        var found;
        found, s, p := Sweep(m, s, p, snap.BeforeSweep(order, n), from);
        if found {
          return;
        }
        s, p, m, n := 0, 0, !m, n + 1;
      }
    }

    /** `dame_nro_frame_reemplazado`, called when no frame is free: the hand is left on the
        victim, which is evicted. */
    method ReplaceFrame() returns (frame: nat)
      requires segmentoClock < |segments|
      requires Snapshot().Shape() && Snapshot().Lists(AllPages(segments))
               && Snapshot().Replaceable(AllPages(segments), Hand())
      requires !Snapshot().FrameFree()
      requires bitmap != bitmapSwap && frames != swapFile
      modifies `segmentoClock, `paginaClock, pages, bitmap, bitmapSwap, swapFile
      ensures segmentoClock < |segments|
      ensures (Snapshot(), frame) == old(Snapshot().FrameFor(AllPages(segments), Hand()))
      ensures Hand() == old(Snapshot().HandPast(AllPages(segments), Hand()))
    {
      hide *;
      ghost var snap, order, start := Snapshot(), AllPages(segments), Hand();
      snap.VictimLocated(order, start);
      snap.FrameForFull(order, start);
      snap.HandPastIs(order, start);
      TableKeys();
      SnapshotIs();
      var s, p := FindVictim(order, start);
      segmentoClock, paginaClock := s, p;
      SnapshotIs();
      TableAt(segments[s].pageTable[p]);
      frame := Evict(segments[s].pageTable[p]);
      HandIs();
    }

    /** The scan of `page_with_free_size`: the lowest free frame, or the one that the clock
        frees when there is none. */
    method FindFrame() returns (f: nat)
      requires Snapshot().Shape() && Listed() && Snapshot().Lists(AllPages(segments))
      requires !Snapshot().FrameFree() ==> segments != [] && Snapshot().Replaceable(AllPages(segments), Hand())
      requires bitmap != bitmapSwap && frames != swapFile
      modifies `segmentoClock, `paginaClock, pages, bitmap, bitmapSwap, swapFile
      ensures segments != [] ==> segmentoClock < |segments|
      ensures (Snapshot(), f) == old(Snapshot().FrameFor(AllPages(segments), Hand()))
      ensures Hand() == old(if Snapshot().FrameFree() then Hand() else Snapshot().HandPast(AllPages(segments), Hand()))
    {
      f := 0;
      while f < bitmap.Length && !bitmap[f]
        invariant f <= bitmap.Length
        invariant forall i :: 0 <= i < f ==> !bitmap[i]
      {
        f := f + 1;
      }
      assert Snapshot().bitmap == bitmap[..];
      if f == bitmap.Length {
        f := ReplaceFrame();
      }
    }

    lemma SoundWhenListed()
      requires Valid() && Listed()
      ensures Sound()
    {
      var s, order := Snapshot(), AllPages(segments);
      if !s.FrameFree() {
        assert frameOwner[0] in pages;
        s.ReplaceableWhenFull(order, Hand(), frameOwner, slotOwner);
      }
    }

    lemma ListedFacts()
      requires Listed()
      ensures Enumerates(AllPages(segments), pages) && Distinct(segments)
      ensures if segments == [] then segmentoClock == 0 else segmentoClock < |segments|
    {
    }

    lemma SoundFacts()
      requires Sound()
      ensures Valid() && Listed() && Workable()
      ensures Snapshot().table.Keys == contents.Keys == pages
      ensures Snapshot().Shape() && Snapshot().Lists(AllPages(segments))
      ensures !Snapshot().FrameFree() ==> segments != [] && Snapshot().Replaceable(AllPages(segments), Hand())
      ensures segments != [] ==> segmentoClock < |segments|
      ensures pageSize >= 4 && bitmap.Length >= 1 && bitmap != bitmapSwap && frames != swapFile
      ensures Snapshot().OwnedBy(frameOwner, slotOwner) && Snapshot().Holds(contents, pageSize)
    {
    }

    lemma HandInside()
      requires Listed()
      ensures Hand() <= |AllPages(segments)|
    {
      if segments != [] {
        AllPagesSlice(segments, segmentoClock);
      }
    }

    lemma HandIs()
      requires segmentoClock < |segments|
      ensures var n := |segments[segmentoClock].pageTable|;
              Hand() == |AllPages(segments[..segmentoClock])| + if paginaClock + 1 < n then paginaClock + 1 else n
    {
    }

    lemma IsValid()
      requires pageSize >= 4 && bitmap.Length >= 1 && bitmap != bitmapSwap && frames != swapFile
      ensures Valid() <==> Snapshot().OwnedBy(frameOwner, slotOwner) && Snapshot().Holds(contents, pageSize)
    {
    }

    method PlacePage(f: nat) returns (pag: Page)
      requires f < bitmap.Length && bitmap != bitmapSwap
      modifies bitmap, `pages
      ensures fresh(pag) && pages == old(pages) + {pag}
      ensures Snapshot() == old(Snapshot()).Place(pag, f)
    {
      bitmap[f] := false;
      pag := new Page(f);
      pages := pages + {pag};
      assert Table() == old(Table())[pag := Entry(true, true, false, f)];
    }

    /** Page `pag` has come into memory as `Store.Arrived` says. */
    ghost predicate Brought(pag: Page, snap: Store, order: seq<Page>, start: nat, modified: bool)
      requires segments != [] ==> segmentoClock < |segments|
      reads `pages, frames, bitmap, swapFile, bitmapSwap, pages, `segments, `segmentoClock, `paginaClock, segments
    {
      && (forall i :: 0 <= i < |order| ==> order[i] in snap.table && order[i] in Snapshot().table)
      && snap.Arrived(pag, order, start, modified, Snapshot(), Hand())
    }

    lemma NewBrought(pag: Page, snap: Store, order: seq<Page>, start: nat)
      requires snap.Shape() && snap.Lists(order) && pag !in snap.table && pag in pages
      requires !snap.FrameFree() ==> snap.Replaceable(order, start) && snap.SlotFree()
      requires segments != [] ==> segmentoClock < |segments|
      requires Snapshot() == snap.Acquire(pag, order, start)
      requires snap.FrameFree() ==> Hand() == start
      requires !snap.FrameFree() ==> Hand() == snap.HandPast(order, start)
      ensures Brought(pag, snap, order, start, false) && pag.isPresent && pag.isUsed && !pag.isModify
    {
      hide Store.Shape, Store.Lists, Store.Replaceable, Store.FrameFree, Store.SlotFree, Snapshot, Hand, Table,
           Store.Acquire, Store.Arrived;
      SnapshotIs();
      TableAt(pag);
      snap.AcquireExactly(pag, order, start);
      snap.ArrivedUsed(pag, order, start, false, Snapshot(), Hand());
    }

    lemma FetchBrought(pag: Page, snap: Store, order: seq<Page>, start: nat)
      requires snap.Shape() && snap.Lists(order) && snap.Located(pag) && !snap.table[pag].present && pag in pages
      requires !snap.FrameFree() ==> snap.Replaceable(order, start) && snap.SlotFree()
      requires segments != [] ==> segmentoClock < |segments|
      requires Snapshot() == snap.Fetch(pag, order, start) && Hand() == snap.HandAfter(pag, order, start)
      requires snap.table[pag].modified == pag.isModify
      ensures Brought(pag, snap, order, start, pag.isModify) && pag.isPresent && pag.isUsed
    {
      hide Store.Shape, Store.Lists, Store.Replaceable, Store.FrameFree, Store.SlotFree, Snapshot, Hand, Table,
           Store.Fetch, Store.Arrived, Store.HandAfter, Store.Located;
      SnapshotIs();
      TableAt(pag);
      snap.FetchExactly(pag, order, start);
      snap.ArrivedUsed(pag, order, start, pag.isModify, Snapshot(), Hand());
    }

    /** `page_with_free_size`: a page with a frame of its own.  Nothing else is disturbed
        exactly when a frame or a swap slot was free. */
    method NewPage() returns (pag: Page)
      requires Sound()
      modifies this, pages, bitmap, bitmapSwap, swapFile
      ensures fresh(pag) && segments == old(segments)
      ensures segments != [] ==> segmentoClock < |segments|
      ensures var (s, f) := old(Snapshot().FrameFor(AllPages(segments), Hand()));
              Snapshot() == s.Place(pag, f)
      ensures Valid() <==> old(Snapshot().Spare())
      ensures pages == old(pages) + {pag}
      ensures Valid() ==> pag in contents && contents == old(contents)[pag := contents[pag]]
      ensures Valid() ==> pag.isPresent && pag.isUsed && !pag.isModify
      ensures Valid() ==> Brought(pag, old(Snapshot()), AllPages(segments), old(Hand()), false)
      ensures Valid() ==> Modified() == old(Modified())
    {
      hide *;
      SoundFacts();
      SnapshotIs();
      ModifiedInTable();
      ghost var snap, order, start := Snapshot(), AllPages(segments), Hand();
      pag := TakePage();
      snap.AcquireIs(pag, order, start);
      SettleNew(pag, snap, order, start);
      snap.SpareIs();
      if snap.Spare() {
        NewBrought(pag, snap, order, start);
      }
    }

    method TakePage() returns (pag: Page)
      requires segments != [] ==> segmentoClock < |segments|
      requires Snapshot().Shape() && Listed() && Snapshot().Lists(AllPages(segments))
      requires !Snapshot().FrameFree() ==> segments != [] && Snapshot().Replaceable(AllPages(segments), Hand())
      requires bitmap != bitmapSwap && frames != swapFile
      modifies `segmentoClock, `paginaClock, `pages, pages, bitmap, bitmapSwap, swapFile
      ensures fresh(pag) && pages == old(pages) + {pag}
      ensures segments != [] ==> segmentoClock < |segments|
      ensures Snapshot() == old(Snapshot()).Acquire(pag, old(AllPages(segments)), old(Hand()))
      ensures Modified() == old(Modified())
      ensures Hand() == old(if Snapshot().FrameFree() then Hand() else Snapshot().HandPast(AllPages(segments), Hand()))
    {
      hide *;
      ModifiedInTable();
      TableKeys();
      ghost var snap, order, start := Snapshot(), AllPages(segments), Hand();
      var f := FindFrame();
      SnapshotIs();
      pag := PlacePage(f);
      snap.AcquireIs(pag, order, start);
      snap.AcquireModified(pag, order, start);
      ModifiedInTable();
    }

    /** The ghost state after `page_with_free_size`. */
    ghost method SettleNew(pag: Page, snap: Store, order: seq<Page>, start: nat)
      requires pageSize >= 4 && bitmap.Length >= 1 && bitmap != bitmapSwap && frames != swapFile
      requires snap.OwnedBy(frameOwner, slotOwner) && snap.Holds(contents, pageSize)
      requires pag !in snap.table && snap.Shape() && (!snap.FrameFree() ==> snap.Replaceable(order, start))
      requires Snapshot() == snap.Acquire(pag, order, start)
      modifies `frameOwner, `slotOwner, `contents
      ensures Valid() <==> snap.Spare()
      ensures Valid() ==> pag in contents && contents == old(contents)[pag := contents[pag]]
    {
      hide *;
      snap.SpareIs();
      if snap.Spare() {
        snap.AcquireHolds(pag, order, start, frameOwner, slotOwner, contents, pageSize);
        frameOwner, slotOwner := snap.AcquireKeeps(pag, order, start, frameOwner, slotOwner);
        contents := contents[pag := Snapshot().Bytes(pag)];
      } else {
        snap.AcquireBreaks(pag, order, start, frameOwner, slotOwner);
      }
      IsValid();
    }

    twostate lemma StillListed()
      requires old(Listed()) && pages == old(pages) && segments == old(segments) && unchanged(segments)
      requires segments != [] ==> segmentoClock < |segments|
      requires pages != {}
      ensures Listed()
    {
    }

    method LoadInto(pag: Page, f: nat)
      requires pag in pages && f < bitmap.Length == frames.Length && pag.fr < swapFile.Length == bitmapSwap.Length
      requires bitmap != bitmapSwap && frames != swapFile
      modifies pag, bitmap, bitmapSwap, frames
      ensures Snapshot() == old(Snapshot()).Load(pag, f)
    {
      bitmap[f] := false;
      bitmapSwap[pag.fr] := true;
      var bytes := swapFile[pag.fr];
      pag.fr := f;
      pag.isPresent := true;
      pag.isUsed := true;
      frames[f] := bytes;
      assert Table() == old(Table())[pag := Entry(true, true, old(Table())[pag].modified, f)];
    }

    /** The two swap-in branches of `obtener_data_marco_heap`. */
    method BringIn(pag: Page)
      requires pag in pages && !pag.isPresent && bitmap != bitmapSwap && frames != swapFile
      requires segments != [] ==> segmentoClock < |segments|
      requires Listed() && Snapshot().Shape() && Snapshot().Lists(AllPages(segments))
      requires !Snapshot().FrameFree() ==> segments != [] && Snapshot().Replaceable(AllPages(segments), Hand())
      requires Snapshot().Located(pag)
      modifies `segmentoClock, `paginaClock, pages, bitmap, bitmapSwap, swapFile, frames
      ensures segments != [] ==> segmentoClock < |segments|
      ensures Snapshot() == old(Snapshot().Fetch(pag, AllPages(segments), Hand()))
      ensures Hand() == old(Snapshot().HandAfter(pag, AllPages(segments), Hand()))
      ensures forall p :: p in pages ==> p.isModify == old(p.isModify)
    {
      hide *;
      ghost var snap, order, start := Snapshot(), AllPages(segments), Hand();
      ModifiedBits();
      snap.FetchModified(pag, order, start);
      SnapshotIs();
      TableAt(pag);
      snap.FetchIs(pag, order, start);
      snap.HandAfterIs(pag, order, start);
      var free := CountFree(bitmap);
      var f;
      if free == 0 {
        f := ReplaceFrame();
      } else {
        f := FindFrame();
      }
      SnapshotIs();
      TableAt(pag);
      LoadInto(pag, f);
      ModifiedBits();
    }

    ghost method SettleFetch(pag: Page, snap: Store, order: seq<Page>, start: nat)
      requires pageSize >= 4 && bitmap.Length >= 1 && bitmap != bitmapSwap && frames != swapFile
      requires snap.OwnedBy(frameOwner, slotOwner) && snap.Holds(contents, pageSize)
      requires pag in snap.table && !snap.table[pag].present && snap.Shape() && snap.Located(pag) && pag in pages
      requires !snap.FrameFree() ==> snap.Replaceable(order, start)
      requires Snapshot() == snap.Fetch(pag, order, start)
      modifies `frameOwner, `slotOwner
      ensures Valid() <==> snap.Spare()
      ensures Valid() ==> pag.isPresent
    {
      hide *;
      snap.SpareIs();
      SnapshotIs();
      TableAt(pag);
      if snap.Spare() {
        snap.FetchHolds(pag, order, start, frameOwner, slotOwner, contents, pageSize);
        frameOwner, slotOwner := snap.FetchKeeps(pag, order, start, frameOwner, slotOwner);
      } else {
        snap.FetchBreaks(pag, order, start, frameOwner, slotOwner);
      }
      IsValid();
    }

    /** `obtener_data_marco_heap`: makes a page present.  No page loses its bytes exactly when
        the page was present already or a frame or a swap slot was free; otherwise two pages
        end up in one frame. */
    method FetchFrame(pag: Page)
      requires Sound() && pag in pages
      modifies this, pages, bitmap, bitmapSwap, swapFile, frames
      ensures segments == old(segments) && pages == old(pages)
      ensures segments != [] ==> segmentoClock < |segments|
      ensures Snapshot() == if old(pag.isPresent) then old(Snapshot())
              else old(Snapshot().Fetch(pag, AllPages(segments), Hand()))
      ensures Hand() == old(Snapshot().HandAfter(pag, AllPages(segments), Hand()))
      ensures Valid() <==> old(pag.isPresent || Snapshot().Spare())
      ensures Valid() ==> Sound() && pag.isPresent && contents == old(contents)
      ensures old(HasRoom()) ==> Valid()
      ensures forall p :: p in pages ==> p.isModify == old(p.isModify)
      ensures Modified() == old(Modified())
      ensures !old(pag.isPresent) && Valid() ==> pag.isUsed
      ensures !old(pag.isPresent) && Valid() ==>
                Brought(pag, old(Snapshot()), AllPages(segments), old(Hand()), pag.isModify)
    {
      hide *;
      SoundFacts();
      ghost var snap, order, start := Snapshot(), AllPages(segments), Hand();
      SnapshotIs();
      TableAt(pag);
      snap.HoldsLocated(contents, pageSize, pag);
      snap.HandAfterIs(pag, order, start);
      RoomIs();
      snap.SpareIs();
      snap.RoomIsSpare(frameOwner, slotOwner);
      if !pag.isPresent {
        BringIn(pag);
        SettleFetch(pag, snap, order, start);
        if snap.Spare() {
          FetchBrought(pag, snap, order, start);
          StillListed();
          SoundWhenListed();
        }
      }
      SameModified();
    }

    /** A page in use, as one just brought in is, is not the next to leave as long as some
        present page is unused and modified, or unused and clean from the hand on. */
    lemma UsedStays(pag: Page, q: Page)
      requires Sound() && !Snapshot().FrameFree() && pag in pages && pag.isUsed
      requires q in pages && q.isPresent && !q.isUsed
      requires q.isModify || q in AllPages(segments)[Hand()..]
      ensures segments != [] && Snapshot().Replaceable(AllPages(segments), Hand())
      ensures Snapshot().Victim(AllPages(segments), Hand()) != pag
    {
      SoundFacts();
      var order, start := AllPages(segments), Hand();
      var snap := Snapshot();
      var bits := snap.BitsOf(order);
      hide *;
      TableAt(pag);
      TableAt(q);
      SnapshotIs();
      var k := snap.ChosenIs(order, start);
      snap.BitAt(order, k);
      snap.IdleAt(order, start, q);
      UsedIsSpared(bits, start, k);
    }

    lemma RoomCounts()
      ensures HasRoom() <==> |pages| < bitmap.Length + bitmapSwap.Length
    {
    }

    lemma RoomIs()
      ensures HasRoom() <==> |pages| < |Snapshot().bitmap| + |Snapshot().bitmapSwap|
      ensures |Snapshot().table| == |pages|
    {
      assert Snapshot().table.Keys == pages;
    }

    /** Reading a page's frame. */
    method ReadPage(pag: Page) returns (bytes: seq<byte>)
      requires Sound() && pag in pages && pag.isPresent
      ensures pag in contents && bytes == contents[pag] && |bytes| == pageSize
    {
      TableAt(pag);
      bytes := frames[pag.fr];
    }

    /** Writing through a pointer into a frame: what changes is the page that the frame holds. */
    method WriteFrame(f: nat, at: nat, data: seq<byte>, ghost pag: Page)
      requires Sound() && pag in pages && pag.isPresent && pag.fr == f && at + |data| <= pageSize
      modifies frames, `contents
      ensures Sound() && Table() == old(Table())
      ensures old(pag in contents && |contents[pag]| == pageSize)
      ensures contents == old(contents)[pag := Splice(old(contents)[pag], at, data)]
      ensures Snapshot().bitmap == old(Snapshot().bitmap) && Snapshot().bitmapSwap == old(Snapshot().bitmapSwap)
    {
      hide *;
      SoundFacts();
      SnapshotIs();
      TableAt(pag);
      ghost var snap := Snapshot();
      snap.WriteKeeps(pag, at, data, frameOwner, slotOwner, contents, pageSize);
      frames[f] := Splice(frames[f], at, data);
      contents := contents[pag := Splice(contents[pag], at, data)];
      SnapshotIs();
      IsValid();
      StillListed();
      SoundWhenListed();
    }

    method SetModified(pag: Page)
      requires pag in pages
      modifies pag`isModify
      ensures pag.isModify && forall p :: p in pages && p != pag ==> p.isModify == old(p.isModify)
      ensures pag in old(Snapshot()).table
      ensures Snapshot() ==
              old(Snapshot()).(table := old(Snapshot()).table[pag := old(Snapshot()).table[pag].(modified := true)])
    {
      pag.isModify := true;
      assert Table() == old(Table())[pag := old(Table())[pag].(modified := true)];
    }

    /** `pagina->is_modify = 1`. */
    method MarkModified(pag: Page)
      requires Sound() && pag in pages
      modifies pag`isModify
      ensures Sound() && pag.isModify && Modified() == old(Modified()) + {pag}
    {
      hide *;
      SoundFacts();
      Snapshot().ModifyKeeps(pag, frameOwner, slotOwner, contents, pageSize);
      SetModified(pag);
      MoreModified(pag);
      IsValid();
      StillListed();
      SoundWhenListed();
    }

    lemma PageListed(ts: seq<seq<Page>>, ps: set<Page>, seg: Segment, pag: Page)
      requires Enumerates(Concat(ts), ps) && Distinct(segments)
      requires seg in segments && segmentoClock < |segments|
      requires pag !in ps && pages == ps + {pag}
      requires |ts| == |segments|
      requires forall i :: 0 <= i < |segments| ==>
               segments[i].pageTable == if segments[i] == seg then ts[i] + [pag] else ts[i]
      ensures Listed()
    {
      hide Enumerates, Concat;
      var s :| 0 <= s < |segments| && segments[s] == seg;
      var k := ConcatAppend(ts, s, pag);
      assert TablesOf(segments) == ts[s := ts[s] + [pag]];
      EnumeratesInsert(Concat(ts), ps, k, pag);
    }

    /** `list_add(seg->page_table, pag); limit += PAGE_SIZE`. */
    method ListPage(seg: Segment, pag: Page, ghost ps: set<Page>)
      requires Valid() && seg in segments && Distinct(segments) && segmentoClock < |segments|
      requires Enumerates(AllPages(segments), ps) && pag !in ps && pages == ps + {pag}
      modifies seg
      ensures Sound()
      ensures seg.pageTable == old(seg.pageTable) + [pag] && seg.limit == old(seg.limit) + pageSize
    {
      hide *;
      ghost var ts := TablesOf(segments);
      TablesAre();
      seg.pageTable := seg.pageTable + [pag];
      seg.limit := seg.limit + pageSize;
      TablesAre();
      PageListed(ts, ps, seg, pag);
      SoundWhenListed();
    }

    lemma TablesAre()
      ensures AllPages(segments) == Concat(TablesOf(segments))
      ensures forall i :: 0 <= i < |segments| ==> TablesOf(segments)[i] == segments[i].pageTable
    {
    }

    /** `page_with_free_size` followed by `list_add` to the segment's page table. */
    method AddPage(seg: Segment) returns (ghost pag: Page)
      requires Sound() && HasRoom() && seg in segments
      modifies this, pages, bitmap, bitmapSwap, swapFile, seg
      ensures Sound() && segments == old(segments)
      ensures fresh(pag) && pages == old(pages) + {pag} && pag in contents && |contents[pag]| == pageSize
      ensures contents == old(contents)[pag := contents[pag]]
      ensures seg.pageTable == old(seg.pageTable) + [pag]
      ensures seg.limit == old(seg.limit) + pageSize
      ensures pag.isPresent && pag.isUsed && !pag.isModify
      ensures Modified() == old(Modified())
    {
      hide *;
      SoundFacts();
      RoomIs();
      Snapshot().RoomIsSpare(frameOwner, slotOwner);
      ListedFacts();
      var p := NewPage();
      pag := p;
      PageSize(pag);
      ListPage(seg, p, old(pages));
    }

    lemma PageSize(pag: Page)
      requires Valid() && pag in pages
      ensures pag in contents && |contents[pag]| == pageSize
    {
    }

    lemma SegmentListed(at: nat, ss: seq<Segment>, seg: Segment)
      requires Enumerates(AllPages(ss), pages) && Distinct(ss)
      requires at <= |ss| && seg !in ss && seg.pageTable == []
      requires segments == ss[..at] + [seg] + ss[at..]
      requires if ss == [] then segmentoClock == 0 else segmentoClock < |ss|
      ensures Listed()
    {
      hide Enumerates, Concat;
      ConcatInsertEmpty(TablesOf(ss), at);
      assert TablesOf(segments) == TablesOf(ss)[..at] + [[]] + TablesOf(ss)[at..];
    }

    /** A new segment, still without pages, takes its place in the segment list. */
    method AddSegment(ss: seq<Segment>, seg: Segment, ghost at: nat)
      requires Sound() && at <= |segments| && seg !in segments && seg.pageTable == []
      requires ss == segments[..at] + [seg] + segments[at..]
      modifies `segments
      ensures Sound() && segments == ss
    {
      hide *;
      SoundFacts();
      ListedFacts();
      segments := ss;
      SnapshotIs();
      IsValid();
      SegmentListed(at, old(segments), seg);
      SoundWhenListed();
    }
  }
}
