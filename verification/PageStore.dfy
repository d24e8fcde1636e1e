/** The state of the pager as a value, and what each paging operation does to it. */
module PageStore {
  import opened ClockPolicy
  import opened Bytes
  import opened Sequences
  import opened Pages

  datatype Entry = Entry(present: bool, used: bool, modified: bool, fr: nat)

  datatype Store = Store(
    frames: seq<seq<byte>>, bitmap: seq<bool>,
    swap: seq<seq<byte>>, bitmapSwap: seq<bool>,
    table: map<Page, Entry>)
  {
    predicate Shape() {
      |frames| == |bitmap| && |swap| == |bitmapSwap|
    }

    predicate InFrame(p: Page, i: nat) {
      p in table && table[p].present && table[p].fr == i
    }

    predicate InSlot(p: Page, i: nat) {
      p in table && !table[p].present && table[p].fr == i
    }

    /** `fo[i]` is the only page in frame i and `so[i]` the only page in swap slot i; a
        bitmap bit is set exactly when nothing owns its frame or slot. */
    ghost predicate OwnedBy(fo: seq<Page?>, so: seq<Page?>) {
      && Shape() && |fo| == |bitmap| && |so| == |bitmapSwap|
      && (forall i :: 0 <= i < |fo| ==> if bitmap[i] then fo[i] == null else fo[i] != null && InFrame(fo[i], i))
      && (forall i :: 0 <= i < |so| ==> if bitmapSwap[i] then so[i] == null else so[i] != null && InSlot(so[i], i))
      && (forall p :: p in table ==>
            if table[p].present then table[p].fr < |fo| && fo[table[p].fr] == p
            else table[p].fr < |so| && so[table[p].fr] == p)
    }

    predicate Located(p: Page) {
      p in table && table[p].fr < if table[p].present then |frames| else |swap|
    }

    /** The bytes of a page, wherever they are. */
    function Bytes(p: Page): seq<byte>
      requires Located(p)
    {
      if table[p].present then frames[table[p].fr] else swap[table[p].fr]
    }

    /** Every page has its bytes, all pages and frames have the page size, and `contents` is
        what the pages hold. */
    ghost predicate Holds(contents: map<Page, seq<byte>>, n: nat) {
      && contents.Keys == table.Keys
      && (forall p :: p in table ==> Located(p) && Bytes(p) == contents[p] && |contents[p]| == n)
      && (forall i :: 0 <= i < |frames| ==> |frames[i]| == n)
    }

    predicate FrameFree() { FirstTrue(bitmap) < |bitmap| }

    predicate SlotFree() { FirstTrue(bitmapSwap) < |bitmapSwap| }

    /** `se_hace_la_vistima`: the frame of a present page is freed and its bytes go to the
        lowest free swap slot.  With a full swap the frame is freed all the same and the page
        stays present. */
    function Evict(p: Page): Store
      requires Shape() && p in table && table[p].fr < |bitmap|
    {
      var freed := bitmap[table[p].fr := true];
      var slot := FirstTrue(bitmapSwap);
      if slot == |bitmapSwap| then this.(bitmap := freed)
      else this.(
        bitmap := freed,
        bitmapSwap := bitmapSwap[slot := false],
        swap := swap[slot := frames[table[p].fr]],
        table := table[p := table[p].(present := false, fr := slot)])
    }

    lemma EvictIs(p: Page, r: Store)
      requires Shape() && p in table && table[p].fr < |bitmap|
      requires var slot := FirstTrue(bitmapSwap);
               r == if slot == |bitmapSwap| then Store(frames, bitmap[table[p].fr := true], swap, bitmapSwap, table)
                    else Store(frames, bitmap[table[p].fr := true], swap[slot := frames[table[p].fr]],
                      bitmapSwap[slot := false],
                               table[p := table[p].(present := false, fr := slot)])
      ensures r == Evict(p)
    {
    }

    lemma ShapeIs()
      requires Shape()
      ensures |frames| == |bitmap| && |swap| == |bitmapSwap|
    {
    }

    /** Eviction keeps ownership exactly when the swap has a free slot. */
    lemma EvictKeeps(p: Page, fo: seq<Page?>, so: seq<Page?>)
      requires OwnedBy(fo, so) && p in table && table[p].present && SlotFree()
      ensures Evict(p).OwnedBy(fo[table[p].fr := null], so[FirstTrue(bitmapSwap) := p])
      ensures forall q :: q in table ==> Evict(p).Located(q) && Evict(p).Bytes(q) == Bytes(q)
    {
      EvictOwned(p, fo, so);
      EvictBytes(p, fo, so);
      hide *;
    }

    lemma EvictOwned(p: Page, fo: seq<Page?>, so: seq<Page?>)
      requires OwnedBy(fo, so) && p in table && table[p].present && SlotFree()
      ensures Evict(p).OwnedBy(fo[table[p].fr := null], so[FirstTrue(bitmapSwap) := p])
    {
      hide Located, Bytes, Holds;
    }

    lemma EvictBytes(p: Page, fo: seq<Page?>, so: seq<Page?>)
      requires OwnedBy(fo, so) && p in table && table[p].present && SlotFree()
      ensures forall q :: q in table ==> Evict(p).Located(q) && Evict(p).Bytes(q) == Bytes(q)
    {
    }

    lemma EvictBreaks(p: Page, fo: seq<Page?>, so: seq<Page?>)
      requires Shape() && p in table && table[p].present && table[p].fr < |bitmap| && !SlotFree()
      ensures !Evict(p).OwnedBy(fo, so)
    {
      assert Evict(p).table == table;
    }

    /** `order` lists every page exactly once. */
    ghost predicate Lists(order: seq<Page>) {
      Enumerates(order, table.Keys)
    }

    lemma ListsFacts(order: seq<Page>)
      requires Lists(order)
      ensures forall i :: 0 <= i < |order| ==> order[i] in table
    {
    }

    function BitsOf(order: seq<Page>): (bits: seq<Bits>)
      requires forall i :: 0 <= i < |order| ==> order[i] in table
      ensures |bits| == |order|
    {
      seq(|order|, i requires 0 <= i < |order| =>
        var e := table[order[i]]; Bits(e.present, e.used, e.modified))
    }

    function ClearUsed(ps: seq<Page>): Store {
      this.(table := map p | p in table ::
        if p in ps && table[p].present then table[p].(used := false) else table[p])
    }

    lemma ClearUsedNone()
      ensures ClearUsed([]) == this
    {
      assert ClearUsed([]).table == table;
    }

    lemma ClearUsedStep(order: seq<Page>, k: nat)
      requires Lists(order) && k < |order|
      ensures ClearUsed(order[..k + 1]).table ==
              if table[order[k]].present
              then ClearUsed(order[..k]).table[order[k] := table[order[k]].(used := false)]
              else ClearUsed(order[..k]).table
      ensures ClearUsed(order[..k]).table[order[k]] == table[order[k]]
    {
      assert order[..k + 1] == order[..k] + [order[k]];
      assert order[k] !in order[..k];
    }

    lemma ClearUsedBits(order: seq<Page>, k: nat)
      requires Lists(order) && k <= |order|
      ensures ClearUsed(order[..k]).Lists(order)
      ensures ClearUsed(order[..k]).BitsOf(order) == Cleared(BitsOf(order), k)
    {
      forall i | 0 <= i < |order|
        ensures ClearUsed(order[..k]).BitsOf(order)[i] == Cleared(BitsOf(order), k)[i]
      {
        if i < k {
          assert order[..k][i] == order[i];
        } else {
          assert order[i] !in order[..k];
        }
      }
    }

    lemma ClearUsedTwice(order: seq<Page>, k: nat)
      requires k <= |order|
      ensures ClearUsed(order).ClearUsed(order[..k]) == ClearUsed(order)
    {
      assert ClearUsed(order).ClearUsed(order[..k]).table == ClearUsed(order).table;
    }

    predicate Replaceable(order: seq<Page>, start: nat) {
      && Shape()
      && (forall i :: 0 <= i < |order| ==>
         order[i] in table
         && table[order[i]].fr < if table[order[i]].present then |bitmap| else |swap|)
      && start <= |order|
      && Choose(BitsOf(order), start).victim < |order|
      && table[order[Choose(BitsOf(order), start).victim]].present
    }

    function Victim(order: seq<Page>, start: nat): (v: Page)
      requires Replaceable(order, start)
    {
      order[Choose(BitsOf(order), start).victim]
    }

    function ClockPass(order: seq<Page>, start: nat): Store
      requires Replaceable(order, start)
    {
      ClearUsed(order[..Choose(BitsOf(order), start).passed])
    }

    /** `dame_nro_frame_reemplazado`: the clock chooses a victim among the pages in `order`,
        clearing U bits on its way, and evicts it. */
    function Replace(order: seq<Page>, start: nat): Store
      requires Replaceable(order, start)
    {
      ClockPass(order, start).Evict(Victim(order, start))
    }

    lemma VictimLocated(order: seq<Page>, start: nat)
      requires Replaceable(order, start)
      ensures var v, s := Victim(order, start), ClockPass(order, start);
              && s == this.(table := s.table) && s.Shape() && s.table.Keys == table.Keys
              && v in table && s.table[v].fr == table[v].fr < |bitmap|
              && Replace(order, start) == s.Evict(v)
    {
    }

    lemma ReplaceableWhenFull(order: seq<Page>, start: nat, fo: seq<Page?>, so: seq<Page?>)
      requires OwnedBy(fo, so) && Lists(order) && start <= |order|
      requires !FrameFree() && |bitmap| > 0
      ensures Replaceable(order, start)
    {
      var bits := BitsOf(order);
      var i :| 0 <= i < |order| && order[i] == fo[0];
      assert bits[i].present;
      ChooseSucceeds(bits, start);
      assert bits[Choose(bits, start).victim].present;
    }

    /** The store that the n-th sweep starts from. */
    function BeforeSweep(order: seq<Page>, n: nat): Store {
      if n < 2 then this else ClearUsed(order)
    }

    lemma BeforeSweepLists(order: seq<Page>, n: nat)
      requires Lists(order)
      ensures BeforeSweep(order, n).table.Keys == table.Keys
      ensures BeforeSweep(order, n).Lists(order)
      ensures BeforeSweep(order, n).BitsOf(order) == SweepBits(BitsOf(order), n)
    {
      assert order[..|order|] == order;
      ClearUsedBits(order, |order|);
    }

    /** What the n-th sweep leads to: the next one, or the end of the search. */
    lemma SweepLeads(order: seq<Page>, start: nat, n: nat)
      requires Lists(order) && Replaceable(order, start)
      requires n < 4 && Missed(BitsOf(order), start, n)
      ensures var bits := BitsOf(order);
              var m := n % 2 == 1;
              var k := Scan(SweepBits(bits, n), SweepFrom(start, n), m);
              var after := if m then BeforeSweep(order, n).ClearUsed(order[..k]) else BeforeSweep(order, n);
              if k == |order| then n < 3 && Missed(bits, start, n + 1) && after == BeforeSweep(order, n + 1)
              else
                && Choose(bits, start).victim == k && Victim(order, start) == order[k]
                && ClockPass(order, start) == after
    {
      hide Scan, Missed, SweepBits, SweepFrom, Choose, Cleared, ClearUsed, Lists;
      var bits := BitsOf(order);
      ChooseBySweep(bits, start, n);
      var k := Scan(SweepBits(bits, n), SweepFrom(start, n), n % 2 == 1);
      if k == |order| && n == 3 {
        MissedAll(bits, start);
      }
      ClearUsedNone();
      assert order[..0] == [] && order[..|order|] == order;
      if k < |order| && n == 3 {
        ClearUsedTwice(order, k);
      }
    }

    /** Exactly one page leaves memory, and only when the swap has room; the others keep
        their place and their M bit and no U bit is set. */
    lemma ReplaceMovesOne(order: seq<Page>, start: nat)
      requires Replaceable(order, start) && Lists(order)
      ensures var v := Victim(order, start); var s := Replace(order, start);
              && s.table.Keys == table.Keys && v in table && table[v].present
              && s.table[v].present == !SlotFree() && !s.table[v].used
              && (forall p :: p in table ==>
                 s.table[p].modified == table[p].modified
                 && (s.table[p].used ==> table[p].used))
              && (forall p :: p in table && p != v ==>
                 s.table[p].present == table[p].present
                 && s.table[p].fr == table[p].fr)
              && s.bitmap == bitmap[table[v].fr := true]
    {
      ClockMoves(order, start);
      hide ClockPass, Victim, Replaceable, Lists;
    }

    /** The clock changes nothing but U bits, and the victim's is clear in the end. */
    lemma ClockMoves(order: seq<Page>, start: nat)
      requires Replaceable(order, start) && Lists(order)
      ensures var v, s := Victim(order, start), ClockPass(order, start);
              && s == this.(table := s.table) && s.Shape() && s.table.Keys == table.Keys
              && v in table && s.table[v].present && s.table[v].fr < |bitmap|
              && s.table[v] == table[v].(used := false)
              && (forall p :: p in table ==>
                 s.table[p] == table[p].(used := s.table[p].used)
                 && (s.table[p].used ==> table[p].used))
              && Replace(order, start) == s.Evict(v)
    {
      var bits := BitsOf(order);
      var c := Choose(bits, start);
      var after := Cleared(bits, c.passed);
      assert bits[c.victim].present;
      ChooseSucceeds(bits, start);
      var v := order[c.victim];
      if c.victim < c.passed {
        assert order[..c.passed][c.victim] == v;
      } else {
        assert after[c.victim] == bits[c.victim];
      }
      hide Choose;
    }

    lemma ReplaceKeeps(order: seq<Page>, start: nat, fo: seq<Page?>, so: seq<Page?>)
      requires Replaceable(order, start) && OwnedBy(fo, so) && SlotFree()
      ensures var v := Victim(order, start); var s := Replace(order, start);
              && s.OwnedBy(fo[table[v].fr := null], so[FirstTrue(bitmapSwap) := v])
              && forall q :: q in table ==> s.Located(q) && s.Bytes(q) == Bytes(q)
    {
      var c := ClockPass(order, start);
      var v := Victim(order, start);
      assert c.OwnedBy(fo, so);
      c.EvictKeeps(v, fo, so);
      assert forall q :: q in table ==> c.Bytes(q) == Bytes(q);
    }

    /** A frame for a page that needs one, freed by the clock when none is free. */
    function FrameFor(order: seq<Page>, start: nat): (r: (Store, nat))
      requires Shape() && (!FrameFree() ==> Replaceable(order, start))
      ensures r.0.Shape() && r.1 < |r.0.bitmap| == |bitmap| && r.0.bitmap[r.1]
    {
      if FrameFree() then (this, FirstTrue(bitmap))
      else (Replace(order, start), table[Victim(order, start)].fr)
    }

    function Place(q: Page, f: nat): Store
      requires f < |bitmap|
    {
      this.(bitmap := bitmap[f := false], table := table[q := Entry(true, true, false, f)])
    }

    lemma PlaceKeeps(q: Page, f: nat, fo: seq<Page?>, so: seq<Page?>)
      requires OwnedBy(fo, so) && q !in table && f < |bitmap| && bitmap[f]
      ensures Place(q, f).OwnedBy(fo[f := q], so)
      ensures forall p :: p in table ==> Place(q, f).Located(p) && Place(q, f).Bytes(p) == Bytes(p)
    {
    }

    function Load(p: Page, f: nat): Store
      requires Shape() && f < |bitmap| && p in table && table[p].fr < |swap|
    {
      this.(bitmap := bitmap[f := false],
            bitmapSwap := bitmapSwap[table[p].fr := true],
            frames := frames[f := swap[table[p].fr]],
            table := table[p := Entry(true, true, table[p].modified, f)])
    }

    lemma LoadKeeps(p: Page, f: nat, fo: seq<Page?>, so: seq<Page?>)
      requires OwnedBy(fo, so) && p in table && !table[p].present && f < |bitmap| && bitmap[f]
      ensures Load(p, f).OwnedBy(fo[f := p], so[table[p].fr := null])
      ensures forall q :: q in table ==> Load(p, f).Located(q) && Load(p, f).Bytes(q) == Bytes(q)
    {
    }

    lemma LoadHolds(p: Page, f: nat, fo: seq<Page?>, so: seq<Page?>, contents: map<Page, seq<byte>>, n: nat)
      requires OwnedBy(fo, so) && p in table && !table[p].present && f < |bitmap| && bitmap[f]
      requires Holds(contents, n)
      ensures Load(p, f).Holds(contents, n)
    {
      LoadKeeps(p, f, fo, so);
      assert swap[table[p].fr] == contents[p];
    }

    lemma OwnedShape(fo: seq<Page?>, so: seq<Page?>)
      requires OwnedBy(fo, so)
      ensures Shape()
    {
    }

    /** `page_with_free_size`: the new page takes the frame with whatever bytes it holds. */
    function Acquire(q: Page, order: seq<Page>, start: nat): Store
      requires Shape() && (!FrameFree() ==> Replaceable(order, start))
    {
      var (s, f) := FrameFor(order, start);
      s.Place(q, f)
    }

    /** `obtener_data_marco_heap`: an absent page is read back into a frame and its swap slot
        is released. */
    function Fetch(p: Page, order: seq<Page>, start: nat): Store
      requires Shape() && Located(p) && (!FrameFree() ==> Replaceable(order, start))
    {
      if table[p].present then this else
      var (s, f) := FrameFor(order, start);
      s.Load(p, f)
    }

    /** Just past the page that the clock takes. */
    function HandPast(order: seq<Page>, start: nat): nat
      requires Replaceable(order, start)
    {
      Choose(BitsOf(order), start).victim + 1
    }

    lemma HandPastIs(order: seq<Page>, start: nat)
      requires Replaceable(order, start)
      ensures HandPast(order, start) == Choose(BitsOf(order), start).victim + 1
    {
    }

    /** Where the clock hand is after fetching `p`: just past the victim, if there was one. */
    function HandAfter(p: Page, order: seq<Page>, start: nat): nat
      requires p in table && (!FrameFree() ==> Replaceable(order, start))
    {
      if table[p].present || FrameFree() then start else HandPast(order, start)
    }

    lemma HandAfterIs(p: Page, order: seq<Page>, start: nat)
      requires p in table && (!FrameFree() ==> Replaceable(order, start))
      ensures FrameFree() || table[p].present ==> HandAfter(p, order, start) == start
      ensures !FrameFree() && !table[p].present ==>
              HandAfter(p, order, start) == HandPast(order, start)
    {
    }

    /** Somewhere to put one more page. */
    predicate Spare() { FrameFree() || SlotFree() }

    lemma FetchIs(p: Page, order: seq<Page>, start: nat)
      requires Shape() && Located(p) && (!FrameFree() ==> Replaceable(order, start))
      ensures p in table
      ensures table[p].present ==> Fetch(p, order, start) == this
      ensures !table[p].present ==>
                var (s, f) := FrameFor(order, start);
                && s.Shape() && f < |s.bitmap| == |s.frames| && s.bitmap[f] && p in s.table
                && s.table[p].fr == table[p].fr < |s.swap|
                && |s.bitmap| == |bitmap| && |s.bitmapSwap| == |bitmapSwap|
                && s.table.Keys == table.Keys
                && Fetch(p, order, start) == s.Load(p, f)
      ensures FrameFree() <==> CountTrue(bitmap) != 0
      ensures Fetch(p, order, start).table.Keys == table.Keys
    {
      CountTrueZero(bitmap);
    }

    lemma FrameForFull(order: seq<Page>, start: nat)
      requires Shape() && !FrameFree() && Replaceable(order, start)
      ensures var v := Victim(order, start);
              v in table && FrameFor(order, start) == (Replace(order, start), table[v].fr)
      ensures FrameFor(order, start).0.table.Keys == table.Keys
    {
    }

    lemma HoldsLocated(contents: map<Page, seq<byte>>, n: nat, p: Page)
      requires Holds(contents, n) && p in table
      ensures Located(p) && p in contents && Bytes(p) == contents[p] && |contents[p]| == n
      ensures table[p].present ==> table[p].fr < |frames| && frames[table[p].fr] == contents[p]
    {
    }

    lemma SpareIs()
      ensures Spare() <==> FrameFree() || SlotFree()
    {
    }

    lemma AcquireIs(q: Page, order: seq<Page>, start: nat)
      requires Shape() && (!FrameFree() ==> Replaceable(order, start))
      ensures var (s, f) := FrameFor(order, start);
              s.Shape() && f < |s.bitmap| && s.bitmap[f] && s.table.Keys == table.Keys
                && Acquire(q, order, start) == s.Place(q, f)
    {
    }

    /** A page taken anew is unmodified and no other M bit changes. */
    lemma AcquireModified(q: Page, order: seq<Page>, start: nat)
      requires Shape() && Lists(order) && (!FrameFree() ==> Replaceable(order, start)) && q !in table
      ensures Acquire(q, order, start).table.Keys == table.Keys + {q}
      ensures !Acquire(q, order, start).table[q].modified
      ensures forall p :: p in table ==> Acquire(q, order, start).table[p].modified == table[p].modified
    {
      AcquireIs(q, order, start);
      if !FrameFree() {
        ReplaceMovesOne(order, start);
      }
      hide Replaceable, Lists, Shape;
    }

    lemma FrameForKeeps(order: seq<Page>, start: nat, fo: seq<Page?>, so: seq<Page?>)
      returns (fo': seq<Page?>, so': seq<Page?>)
      requires OwnedBy(fo, so) && (!FrameFree() ==> Replaceable(order, start)) && Spare()
      ensures var s := FrameFor(order, start).0;
              && s.OwnedBy(fo', so') && s.table.Keys == table.Keys
              && (forall q :: q in table ==> s.Located(q) && s.Bytes(q) == Bytes(q))
              && (forall q :: q in table && !table[q].present ==> s.table[q] == table[q])
              && s.frames == frames
    {
      if FrameFree() {
        fo', so' := fo, so;
      } else {
        var v := Victim(order, start);
        fo', so' := fo[table[v].fr := null], so[FirstTrue(bitmapSwap) := v];
        ReplaceKeeps(order, start, fo, so);
      }
    }

    /** A new page disturbs no other exactly when a frame or a swap slot was free. */
    lemma AcquireKeeps(q: Page, order: seq<Page>, start: nat, fo: seq<Page?>, so: seq<Page?>)
      returns (fo': seq<Page?>, so': seq<Page?>)
      requires OwnedBy(fo, so) && q !in table && (!FrameFree() ==> Replaceable(order, start)) && Spare()
      ensures var s := Acquire(q, order, start);
              && s.OwnedBy(fo', so') && s.table.Keys == table.Keys + {q} && s.table[q].present
              && forall p :: p in table ==> s.Located(p) && s.Bytes(p) == Bytes(p)
    {
      var (s, f) := FrameFor(order, start);
      fo', so' := FrameForKeeps(order, start, fo, so);
      s.PlaceKeeps(q, f, fo', so');
      fo' := fo'[f := q];
    }

    lemma FrameForHolds(order: seq<Page>, start: nat, fo: seq<Page?>, so: seq<Page?>, contents: map<Page, seq<byte>>,
                        n: nat)
      requires OwnedBy(fo, so) && (!FrameFree() ==> Replaceable(order, start)) && Spare()
      requires Holds(contents, n)
      ensures FrameFor(order, start).0.Holds(contents, n)
    {
      hide Replaceable, FrameFor, Spare, OwnedBy;
      var _, _ := FrameForKeeps(order, start, fo, so);
    }

    lemma AcquireHolds(q: Page, order: seq<Page>, start: nat, fo: seq<Page?>, so: seq<Page?>,
                       contents: map<Page, seq<byte>>, n: nat)
      requires OwnedBy(fo, so) && q !in table && (!FrameFree() ==> Replaceable(order, start)) && Spare()
      requires Holds(contents, n)
      ensures var s := Acquire(q, order, start);
              && s.Located(q) && s.Holds(contents[q := s.Bytes(q)], n)
    {
      var _, _ := AcquireKeeps(q, order, start, fo, so);
      var _, _ := FrameForKeeps(order, start, fo, so);
      hide OwnedBy, Replaceable, Spare, Bytes, FrameFor;
    }

    lemma FrameForBreaks(order: seq<Page>, start: nat)
      requires !Spare() && Replaceable(order, start)
      ensures var v := Victim(order, start); var (s, f) := FrameFor(order, start);
              s.table.Keys == table.Keys && s.InFrame(v, f)
    {
    }

    lemma AcquireBreaks(q: Page, order: seq<Page>, start: nat, fo: seq<Page?>, so: seq<Page?>)
      requires q !in table && Replaceable(order, start) && !Spare()
      ensures !Acquire(q, order, start).OwnedBy(fo, so)
    {
      FrameForBreaks(order, start);
      var s := Acquire(q, order, start);
      var f := FrameFor(order, start).1;
      assert s.InFrame(q, f) && s.InFrame(Victim(order, start), f);
    }

    /** Bringing a page in changes the bytes of no page exactly when it was present already
        or a frame or a swap slot was free. */
    lemma FetchKeeps(p: Page, order: seq<Page>, start: nat, fo: seq<Page?>, so: seq<Page?>)
      returns (fo': seq<Page?>, so': seq<Page?>)
      requires OwnedBy(fo, so) && p in table && (!FrameFree() ==> Replaceable(order, start))
      requires table[p].present || Spare()
      ensures var s := Fetch(p, order, start);
              && s.OwnedBy(fo', so') && s.table.Keys == table.Keys && s.table[p].present
              && forall q :: q in table ==> s.Located(q) && s.Bytes(q) == Bytes(q)
    {
      fo', so' := fo, so;
      if !table[p].present {
        var (s, f) := FrameFor(order, start);
        fo', so' := FrameForKeeps(order, start, fo, so);
        s.LoadKeeps(p, f, fo', so');
        fo', so' := fo'[f := p], so'[table[p].fr := null];
      }
    }

    lemma FetchHolds(p: Page, order: seq<Page>, start: nat, fo: seq<Page?>, so: seq<Page?>,
                     contents: map<Page, seq<byte>>, n: nat)
      requires OwnedBy(fo, so) && p in table && (!FrameFree() ==> Replaceable(order, start))
      requires table[p].present || Spare()
      requires Holds(contents, n)
      ensures Fetch(p, order, start).Holds(contents, n)
    {
      hide *;
      HoldsLocated(contents, n, p);
      OwnedShape(fo, so);
      FetchIs(p, order, start);
      if !table[p].present {
        var (s, f) := FrameFor(order, start);
        FrameForHolds(order, start, fo, so, contents, n);
        var fo', so' := FrameForKeeps(order, start, fo, so);
        s.LoadHolds(p, f, fo', so', contents, n);
      }
    }

    /** Only `MarkModified` changes M bits. */
    lemma FetchModified(p: Page, order: seq<Page>, start: nat)
      requires Shape() && Located(p) && Lists(order) && (!FrameFree() ==> Replaceable(order, start))
      ensures forall q :: q in table ==>
              q in Fetch(p, order, start).table
              && Fetch(p, order, start).table[q].modified == table[q].modified
    {
      if !table[p].present && !FrameFree() {
        ReplaceMovesOne(order, start);
      }
    }

    /** Whether bringing `second` in takes the frame of `first`: a condition on the state
        before `first` itself is brought in. */
    ghost predicate LosesFirst(first: Page, second: Page, order: seq<Page>, start: nat) {
      && Shape() && Located(first) && (!FrameFree() ==> Replaceable(order, start))
      && Fetch(first, order, start).Takes(first, second, order, HandAfter(first, order, start))
    }

    ghost predicate Takes(first: Page, second: Page, order: seq<Page>, start: nat) {
      && second in table && !table[second].present && !FrameFree()
      && Replaceable(order, start) && Victim(order, start) == first
    }

    lemma TakesIs(first: Page, second: Page, order: seq<Page>, start: nat, fo: seq<Page?>, so: seq<Page?>)
      requires OwnedBy(fo, so) && Lists(order) && (!FrameFree() ==> Replaceable(order, start)) && Spare()
      requires first in table && second in table && first != second && table[first].present
      ensures Shape() && Located(second)
      ensures var t := Fetch(second, order, start);
              && t.table.Keys == table.Keys
              && if Takes(first, second, order, start)
                 then t.table[second].fr == table[first].fr
                 else t.table[first].present && t.table[first].fr == table[first].fr
    {
      if !table[second].present && !FrameFree() {
        ReplaceMovesOne(order, start);
      }
    }

    /** When that is, by the bits of the pages: the second page is absent, no frame is free and
        the first page is the one that the clock chooses. */
    lemma TakesIff(first: Page, second: Page, order: seq<Page>, start: nat, fo: seq<Page?>, so: seq<Page?>)
      requires OwnedBy(fo, so) && Lists(order) && start <= |order| && |bitmap| > 0 && second in table
      ensures forall i :: 0 <= i < |order| ==> order[i] in table
      ensures Takes(first, second, order, start) <==>
                && !table[second].present && !FrameFree()
                && exists i :: 0 <= i < |order| && order[i] == first && IsChosen(BitsOf(order), start, i)
    {
      ListsFacts(order);
      if !FrameFree() {
        ReplaceableWhenFull(order, start, fo, so);
        var bits, v := BitsOf(order), Choose(BitsOf(order), start).victim;
        assert bits[v].present;
        forall i | 0 <= i < |order| ensures IsChosen(bits, start, i) <==> i == v {
          ChosenIff(bits, start, i);
        }
        hide IsChosen, OwnedBy, Choose;
      }
    }

    /** With a single frame every split header is lost. */
    lemma OneFrameLoses(first: Page, second: Page, order: seq<Page>, start: nat, fo: seq<Page?>, so: seq<Page?>)
      requires OwnedBy(fo, so) && Lists(order) && start <= |order| && |bitmap| == 1
      requires first in table && second in table && first != second && (table[first].present || Spare())
      ensures LosesFirst(first, second, order, start)
    {
      ListsFacts(order);
      if !FrameFree() {
        ReplaceableWhenFull(order, start, fo, so);
      }
      var fo', so' := FetchKeeps(first, order, start, fo, so);
      var t, hand := Fetch(first, order, start), HandAfter(first, order, start);
      HandAfterIs(first, order, start);
      assert t.table[first].fr == 0 && fo'[0] == first && t.Lists(order);
      t.ReplaceableWhenFull(order, hand, fo', so');
      t.OnePresent(t.Victim(order, hand), first, fo', so');
      t.OnePresent(second, first, fo', so');
    }

    lemma OnePresent(p: Page, q: Page, fo: seq<Page?>, so: seq<Page?>)
      requires OwnedBy(fo, so) && |bitmap| == 1 && p in table && q in table && table[q].present
      ensures table[p].present <==> p == q
      ensures !FrameFree()
    {
    }

    lemma FetchBreaks(p: Page, order: seq<Page>, start: nat, fo: seq<Page?>, so: seq<Page?>)
      requires Located(p) && !table[p].present && Replaceable(order, start) && !Spare()
      ensures !Fetch(p, order, start).OwnedBy(fo, so)
    {
      FrameForBreaks(order, start);
      var s := Fetch(p, order, start);
      var f := FrameFor(order, start).1;
      assert s.InFrame(p, f) && s.InFrame(Victim(order, start), f);
    }

    /** The lowest position that is set. */
    ghost predicate Lowest(bits: seq<bool>, i: nat) {
      i < |bits| && bits[i] && forall j :: 0 <= j < i ==> !bits[j]
    }

    /** What the clock does to all pages but `p`: page `k` of the order leaves its frame for the
        lowest free slot, and U bits are as `UsedAfter` says. */
    ghost predicate Replaced(order: seq<Page>, start: nat, k: nat, s: Store, p: Page?)
      requires (forall i :: 0 <= i < |order| ==> order[i] in table && order[i] in s.table) && k < |order|
    {
      && IsChosen(BitsOf(order), start, k)
      && Lowest(bitmapSwap, s.table[order[k]].fr) && !s.table[order[k]].present
      && forall i :: 0 <= i < |order| && order[i] != p ==>
           && s.table[order[i]].modified == table[order[i]].modified
           && (s.table[order[i]].used <==> UsedAfter(BitsOf(order), start, i))
           && (i != k ==>
                 s.table[order[i]].present == table[order[i]].present && s.table[order[i]].fr == table[order[i]].fr)
    }

    lemma ChosenIs(order: seq<Page>, start: nat) returns (k: nat)
      requires Replaceable(order, start)
      ensures start <= |order| && forall i :: 0 <= i < |order| ==> order[i] in table
      ensures k == Choose(BitsOf(order), start).victim < |order| && order[k] == Victim(order, start)
      ensures IsChosen(BitsOf(order), start, k) && SomePresent(BitsOf(order))
    {
      k := Choose(BitsOf(order), start).victim;
      assert BitsOf(order)[k].present;
      ChooseByClass(BitsOf(order), start);
      hide Choose, IsChosen;
    }

    lemma UsedAfterPass(order: seq<Page>, start: nat, i: nat)
      requires Replaceable(order, start) && Lists(order) && i < |order| && SomePresent(BitsOf(order))
      ensures order[i] in ClockPass(order, start).table
      ensures ClockPass(order, start).table[order[i]].used <==> UsedAfter(BitsOf(order), start, i)
    {
      var n := Choose(BitsOf(order), start).passed;
      UsedIs(BitsOf(order), start, i);
      ClearUsedBits(order, n);
      assert ClockPass(order, start).BitsOf(order)[i] == Cleared(BitsOf(order), n)[i];
      hide Choose, UsedAfter, Replaceable, Cleared;
    }

    /** Eviction moves one page. */
    lemma Evicted(p: Page, s: Store)
      requires Shape() && p in table && table[p].fr < |bitmap| && SlotFree() && s == Evict(p)
      ensures p in s.table && !s.table[p].present && s.table[p].used == table[p].used
      ensures s.table[p].modified == table[p].modified && Lowest(bitmapSwap, s.table[p].fr)
      ensures s.table.Keys == table.Keys && forall q :: q in table && q != p ==> s.table[q] == table[q]
    {
    }

    lemma ReplacedIs(order: seq<Page>, start: nat) returns (k: nat)
      requires Replaceable(order, start) && Lists(order) && SlotFree()
      ensures k < |order| && order[k] == Victim(order, start) && k == Choose(BitsOf(order), start).victim
      ensures Replace(order, start).table.Keys == table.Keys && forall i :: 0 <= i < |order| ==> order[i] in table
      ensures Replaced(order, start, k, Replace(order, start), null)
    {
      k := ChosenIs(order, start);
      ClockMoves(order, start);
      var c := ClockPass(order, start);
      forall i | 0 <= i < |order|
        ensures order[i] in c.table && (c.table[order[i]].used <==> UsedAfter(BitsOf(order), start, i))
        ensures i != k ==> order[i] != order[k]
      {
        UsedAfterPass(order, start, i);
      }
      hide Choose, IsChosen, UsedAfter, Lists, ClearUsed, ClockPass, Replaceable, Cleared, Victim, Evict, Lowest,
           BitsOf, Replace;
      c.Evicted(order[k], Replace(order, start));
    }

    /** The page has frame `f`, is in use and keeps its M bit. */
    ghost predicate Came(p: Page, f: nat, modified: bool) {
      p in table && table[p] == Entry(true, true, modified, f)
    }

    /** Page `p` has come into memory, M bit `modified`: into the lowest free frame, with nothing
        else changed, or into the frame of the page that the clock takes, `hand` being left
        behind that one. */
    ghost predicate Arrived(p: Page, order: seq<Page>, start: nat, modified: bool, s: Store, hand: nat)
      requires forall i :: 0 <= i < |order| ==> order[i] in table && order[i] in s.table
    {
      if exists i :: 0 <= i < |bitmap| && bitmap[i] then
        && hand == start && (forall q :: q in table && q != p ==> q in s.table && s.table[q] == table[q])
        && exists f :: Lowest(bitmap, f) && s.Came(p, f, modified)
      else
        exists k :: 0 <= k < |order| && order[k] != p && hand == k + 1 && s.Came(p, table[order[k]].fr, modified)
                    && Replaced(order, start, k, s, p)
    }

    lemma ArrivedUsed(p: Page, order: seq<Page>, start: nat, modified: bool, s: Store, hand: nat)
      requires forall i :: 0 <= i < |order| ==> order[i] in table && order[i] in s.table
      requires Arrived(p, order, start, modified, s, hand)
      ensures p in s.table && s.table[p].present && s.table[p].used && s.table[p].modified == modified
    {
      hide Replaced, Lowest;
    }

    lemma BitAt(order: seq<Page>, i: nat)
      requires i < |order| && forall i :: 0 <= i < |order| ==> order[i] in table
      ensures var e := table[order[i]]; BitsOf(order)[i] == Bits(e.present, e.used, e.modified)
    {
    }

    lemma IdleAt(order: seq<Page>, start: nat, q: Page)
      requires Lists(order) && start <= |order| && forall i :: 0 <= i < |order| ==> order[i] in table
      requires q in table && table[q].present && !table[q].used && (table[q].modified || q in order[start..])
      ensures var bits := BitsOf(order);
              || (exists i :: start <= i < |bits| && Idle(bits[i]))
              || exists i :: 0 <= i < |bits| && IdleDirty(bits[i])
    {
      var i: nat :| i < |order| && order[i] == q && (table[q].modified || start <= i);
      BitAt(order, i);
      assert Idle(BitsOf(order)[i]) || IdleDirty(BitsOf(order)[i]);
    }

    lemma ArrivedFree(p: Page, order: seq<Page>, start: nat, modified: bool, s: Store, f: nat)
      requires forall i :: 0 <= i < |order| ==> order[i] in table && order[i] in s.table
      requires f == FirstTrue(bitmap) < |bitmap| && s.table == table[p := Entry(true, true, modified, f)]
      ensures Arrived(p, order, start, modified, s, start)
    {
      assert Lowest(bitmap, f) && s.Came(p, f, modified);
      hide Replaced;
    }

    lemma ArrivedInstead(p: Page, order: seq<Page>, start: nat, modified: bool, t: Store, k: nat, s: Store)
      requires !FrameFree() && t.table.Keys == table.Keys && k < |order| && order[k] != p
      requires (forall i :: 0 <= i < |order| ==> order[i] in table) && Replaced(order, start, k, t, null)
      requires s.table == t.table[p := Entry(true, true, modified, table[order[k]].fr)]
      ensures (forall i :: 0 <= i < |order| ==> order[i] in s.table) && Arrived(p, order, start, modified, s, k + 1)
    {
      assert s.Came(p, table[order[k]].fr, modified);
      hide IsChosen, UsedAfter, BitsOf, Lowest, Came;
      assert Replaced(order, start, k, s, p);
      hide Replaced;
    }

    lemma FetchExactly(p: Page, order: seq<Page>, start: nat)
      requires Shape() && Lists(order) && Located(p) && !table[p].present
      requires !FrameFree() ==> Replaceable(order, start) && SlotFree()
      ensures Fetch(p, order, start).table.Keys == table.Keys && forall i :: 0 <= i < |order| ==> order[i] in table
      ensures Arrived(p, order, start, table[p].modified, Fetch(p, order, start), HandAfter(p, order, start))
    {
      ListsFacts(order);
      FetchIs(p, order, start);
      HandAfterIs(p, order, start);
      if FrameFree() {
        ArrivedFree(p, order, start, table[p].modified, Fetch(p, order, start), FirstTrue(bitmap));
      } else {
        var k := ReplacedIs(order, start);
        FrameForFull(order, start);
        ReplaceMovesOne(order, start);
        hide Choose, Lists, Replaceable, Victim, Replace, Replaced, Arrived;
        ReplaceModifies(order, start, p);
        ArrivedInstead(p, order, start, table[p].modified, Replace(order, start), k, Fetch(p, order, start));
      }
    }

    lemma ReplaceModifies(order: seq<Page>, start: nat, p: Page)
      requires Replaceable(order, start) && Lists(order) && p in table
      ensures p in Replace(order, start).table && Replace(order, start).table[p].modified == table[p].modified
    {
      ReplaceMovesOne(order, start);
    }

    lemma AcquireExactly(q: Page, order: seq<Page>, start: nat)
      requires Shape() && Lists(order) && q !in table
      requires !FrameFree() ==> Replaceable(order, start) && SlotFree()
      ensures forall i :: 0 <= i < |order| ==> order[i] in table && order[i] in Acquire(q, order, start).table
      ensures Arrived(q, order, start, false, Acquire(q, order, start),
                      if FrameFree() then start else HandPast(order, start))
    {
      ListsFacts(order);
      if FrameFree() {
        ArrivedFree(q, order, start, false, Acquire(q, order, start), FirstTrue(bitmap));
      } else {
        var k := ReplacedIs(order, start);
        FrameForFull(order, start);
        hide Choose, Lists, Replaceable, Victim, Replace, Replaced, Arrived;
        ArrivedInstead(q, order, start, false, Replace(order, start), k, Acquire(q, order, start));
      }
    }

    lemma {:induction false} CountOwners(own: seq<Page?>, bits: seq<bool>, n: nat)
      returns (ps: set<Page>)
      requires |own| == |bits| && n <= |own|
      requires forall i :: 0 <= i < n ==> (bits[i] <==> own[i] == null)
      requires forall i, j :: 0 <= i < j < n && own[i] != null ==> own[i] != own[j]
      ensures forall p :: p in ps ==> exists i :: 0 <= i < n && own[i] == p
      ensures forall i :: 0 <= i < n && own[i] != null ==> own[i] in ps
      ensures |ps| + CountTrue(bits[..n]) == n
    {
      if n == 0 {
        ps := {};
      } else {
        var rest := CountOwners(own, bits, n - 1);
        var last := own[n - 1];
        assert bits[..n][..n - 1] == bits[..n - 1];
        assert last != null ==> last !in rest;
        ps := rest + if last == null then {} else {last};
      }
    }

    lemma PresentCount(fo: seq<Page?>, so: seq<Page?>)
      requires OwnedBy(fo, so)
      ensures CountTrue(bitmap) + |set p | p in table && table[p].present| == |bitmap|
    {
      var ps := CountOwners(fo, bitmap, |fo|);
      assert bitmap[..|fo|] == bitmap;
      assert ps == set p | p in table && table[p].present;
    }

    lemma AbsentCount(fo: seq<Page?>, so: seq<Page?>)
      requires OwnedBy(fo, so)
      ensures CountTrue(bitmapSwap) + |set p | p in table && !table[p].present| == |bitmapSwap|
    {
      var ps := CountOwners(so, bitmapSwap, |so|);
      assert bitmapSwap[..|so|] == bitmapSwap;
      assert ps == set p | p in table && !table[p].present;
    }

    /** Free frames, free slots and pages always add up to the frames and slots there are. */
    lemma Conservation(fo: seq<Page?>, so: seq<Page?>)
      requires OwnedBy(fo, so)
      ensures CountTrue(bitmap) + CountTrue(bitmapSwap) + |table| == |frames| + |swap|
    {
      PresentCount(fo, so);
      AbsentCount(fo, so);
      var here, away := set p | p in table && table[p].present, set p | p in table && !table[p].present;
      assert table.Keys == here + away;
      assert |table.Keys| == |here| + |away|;
    }

    lemma RoomIsSpare(fo: seq<Page?>, so: seq<Page?>)
      requires OwnedBy(fo, so)
      ensures Spare() <==> |table| < |bitmap| + |bitmapSwap|
    {
      Conservation(fo, so);
      CountTrueZero(bitmap);
      CountTrueZero(bitmapSwap);
    }

    function Write(p: Page, at: nat, data: seq<byte>): Store
      requires p in table && table[p].fr < |frames| && at + |data| <= |frames[table[p].fr]|
    {
      this.(frames := frames[table[p].fr := Splice(frames[table[p].fr], at, data)])
    }

    /** A write through a present page's frame changes that page and no other. */
    lemma WriteKeeps(p: Page, at: nat, data: seq<byte>, fo: seq<Page?>, so: seq<Page?>, contents: map<Page, seq<byte>>,
                     n: nat)
      requires OwnedBy(fo, so) && Holds(contents, n) && p in table && table[p].present && at + |data| <= n
      ensures table[p].fr < |frames| && |frames[table[p].fr]| == n && p in contents && |contents[p]| == n
      ensures Write(p, at, data).OwnedBy(fo, so)
      ensures Write(p, at, data).Holds(contents[p := Splice(contents[p], at, data)], n)
      ensures Write(p, at, data) == this.(frames := frames[table[p].fr := Splice(frames[table[p].fr], at, data)])
    {
      var s := Write(p, at, data);
      assert forall q :: q in table && q != p && table[q].present ==> table[q].fr != table[p].fr;
    }

    function Modify(p: Page): Store
      requires p in table
    {
      this.(table := table[p := table[p].(modified := true)])
    }

    lemma ModifyKeeps(p: Page, fo: seq<Page?>, so: seq<Page?>, contents: map<Page, seq<byte>>, n: nat)
      requires p in table && OwnedBy(fo, so) && Holds(contents, n)
      ensures Modify(p).OwnedBy(fo, so) && Modify(p).Holds(contents, n)
      ensures Modify(p) == this.(table := table[p := table[p].(modified := true)])
    {
    }
  }

  /** `r` is `s` after `page_with_free_size` has given page `q` a frame. */
  ghost predicate Took(s: Store, q: Page, order: seq<Page>, start: nat, r: Store) {
    && s.Shape() && q !in s.table && |s.bitmap| > 0 && s.Lists(order) && start <= |order|
    && (!s.FrameFree() ==> s.Replaceable(order, start))
    && r == s.Acquire(q, order, start)
  }

  lemma TookShape(s: Store, q: Page, order: seq<Page>, start: nat, r: Store)
    requires Took(s, q, order, start, r)
    ensures |r.bitmap| == |s.bitmap| && |r.bitmapSwap| == |s.bitmapSwap|
  {
  }

  /** Of the pages that a request takes one after the other, whatever is evicted for them,
      exactly as many as there were free frames and slots get a place of their own. */
  lemma {:induction false} TakenFit(ss: seq<Store>, qs: seq<Page>, orders: seq<seq<Page>>, starts: seq<nat>,
                                    fo: seq<Page?>, so: seq<Page?>)
    returns (fo': seq<Page?>, so': seq<Page?>)
    requires |ss| == |qs| + 1 && |orders| == |starts| == |qs| && ss[0].OwnedBy(fo, so)
    requires forall i :: 0 <= i < |qs| ==> Took(ss[i], qs[i], orders[i], starts[i], ss[i + 1])
    ensures |ss[0].table| + |qs| <= |ss[0].bitmap| + |ss[0].bitmapSwap| ==> ss[|qs|].OwnedBy(fo', so')
    ensures |ss[0].table| + |qs| == |ss[0].bitmap| + |ss[0].bitmapSwap| + 1 ==> forall f, g :: !ss[|qs|].OwnedBy(f, g)
    decreases |qs|
  {
    hide *;
    fo', so' := fo, so;
    RoomFor(ss[0], fo, so);
    if qs != [] {
      TookShape(ss[0], qs[0], orders[0], starts[0], ss[1]);
      if ss[0].Spare() {
        fo', so' := TookKeeps(ss[0], qs[0], orders[0], starts[0], ss[1], fo, so);
        var st, qt, ot, tt := ss[1..], qs[1..], orders[1..], starts[1..];
        forall i | 0 <= i < |qt| ensures Took(st[i], qt[i], ot[i], tt[i], st[i + 1]) {
          assert Took(ss[i + 1], qs[i + 1], orders[i + 1], starts[i + 1], ss[i + 2]);
        }
        fo', so' := TakenFit(st, qt, ot, tt, fo', so');
      } else if |qs| == 1 {
        forall f, g ensures !ss[1].OwnedBy(f, g) {
          TookBreaks(ss[0], qs[0], orders[0], starts[0], ss[1], f, g);
        }
      }
    }
  }

  lemma RoomFor(s: Store, fo: seq<Page?>, so: seq<Page?>)
    requires s.OwnedBy(fo, so)
    ensures |s.table| <= |s.bitmap| + |s.bitmapSwap|
    ensures s.Spare() <==> |s.table| < |s.bitmap| + |s.bitmapSwap|
  {
    s.Conservation(fo, so);
    s.RoomIsSpare(fo, so);
  }

  lemma TookKeeps(s: Store, q: Page, order: seq<Page>, start: nat, r: Store, fo: seq<Page?>, so: seq<Page?>)
    returns (fo': seq<Page?>, so': seq<Page?>)
    requires Took(s, q, order, start, r) && s.OwnedBy(fo, so) && s.Spare()
    ensures r.OwnedBy(fo', so') && |r.table| == |s.table| + 1
  {
    fo', so' := s.AcquireKeeps(q, order, start, fo, so);
    assert |r.table.Keys| == |s.table.Keys| + 1;
  }

  lemma TookBreaks(s: Store, q: Page, order: seq<Page>, start: nat, r: Store, fo: seq<Page?>, so: seq<Page?>)
    requires Took(s, q, order, start, r) && !s.Spare()
    ensures !r.OwnedBy(fo, so)
  {
    s.AcquireBreaks(q, order, start, fo, so);
  }
}
