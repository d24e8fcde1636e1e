/** What the MUSE allocator does to the block list of a program, and what every run of
    requests keeps. */
module HeapSpec {
  import opened Blocks
  import opened Floats

  ghost predicate NoAdjacentFree(b: seq<Block>) {
    forall i, j :: 0 <= i && j == i + 1 && j < |b| ==> !(b[i].free && b[j].free)
  }

  /** The heap invariant of a segment. */
  ghost predicate HeapInv(b: seq<Block>, limit: nat) {
    && b != [] && Tiles(b, 0, limit)
    && b[|b| - 1].free
    && NoAdjacentFree(b)
  }

  /** The blocks in use, in address order. */
  function Used(b: seq<Block>): seq<Block> {
    if b == [] then [] else if b[0].free then Used(b[1..]) else [b[0]] + Used(b[1..])
  }

  function Total(u: seq<Block>): nat {
    if u == [] then 0 else u[0].size + Total(u[1..])
  }

  lemma UsedCons(x: Block, b: seq<Block>)
    ensures Used([x] + b) == if x.free then Used(b) else [x] + Used(b)
  {
    assert ([x] + b)[1..] == b;
  }

  lemma {:induction false} UsedConcat(a: seq<Block>, b: seq<Block>)
    ensures Used(a + b) == Used(a) + Used(b)
  {
    if a == [] {
      assert a + b == b;
    } else {
      UsedConcat(a[1..], b);
      assert (a + b)[1..] == a[1..] + b && (a + b)[0] == a[0];
    }
  }

  lemma {:induction false} TotalConcat(a: seq<Block>, b: seq<Block>)
    ensures Total(a + b) == Total(a) + Total(b)
  {
    if a == [] {
      assert a + b == b;
    } else {
      TotalConcat(a[1..], b);
      assert (a + b)[1..] == a[1..] + b;
    }
  }

  /** The live allocations. */
  ghost function Live(b: seq<Block>): set<Block> {
    set x | x in Used(b)
  }

  lemma {:induction false} UsedMember(b: seq<Block>, x: Block)
    ensures x in Used(b) <==> x in b && !x.free
  {
    if b != [] {
      UsedMember(b[1..], x);
    }
  }

  // ---- search ----

  /** The lowest-address free block of at least `need` bytes, from block `i` on. */
  function FirstFit(b: seq<Block>, i: nat, need: nat): (k: nat)
    requires i <= |b|
    ensures i <= k <= |b|
    ensures k < |b| ==> b[k].free && b[k].size >= need
    ensures forall j :: i <= j < k ==> !(b[j].free && b[j].size >= need)
    decreases |b| - i
  {
    if i == |b| || (b[i].free && b[i].size >= need) then i else FirstFit(b, i + 1, need)
  }

  /** `proxima_metadata_libre_con_size` as coded: |b| stands for -1. */
  function SearchFit(b: seq<Block>, i: nat, need: nat): (k: nat)
    requires i < |b|
    ensures k <= |b|
    decreases |b| - i
  {
    if i == |b| - 1 then
      if b[i].size >= need then i else |b|
    else if i + 1 == |b| - 1 then
      if b[i + 1].free && b[i + 1].size >= need then i + 1 else |b|
    else if b[i].free && b[i].size >= need then i
    else SearchFit(b, i + 1, need)
  }

  /** Under the heap invariant the coded search is first fit, although it does not look at
      `is_free` on a lone block and never tests the last but one. */
  lemma {:induction false} SearchIsFirstFit(b: seq<Block>, i: nat, need: nat)
    requires i < |b| && b[|b| - 1].free && NoAdjacentFree(b)
    ensures SearchFit(b, i, need) == FirstFit(b, i, need)
    decreases |b| - i
  {
    if i + 2 < |b| && !(b[i].free && b[i].size >= need) {
      SearchIsFirstFit(b, i + 1, need);
    } else if i + 2 == |b| {
      assert !b[i].free;
      assert FirstFit(b, i, need) == FirstFit(b, i + 1, need);
    }
  }

  /** `proxima_metadata_libre`: the block it stops at, or |b| for -1.  As coded
      (`guarded` false) it also stops at the last but one block when that is in use and the
      last one is free. */
  function SearchFree(b: seq<Block>, i: nat, guarded: bool): (k: nat)
    requires i < |b| && (i + 1 == |b| ==> b[i].free)
    ensures i <= k <= |b|
    ensures k < |b| ==> b[k].free || (!guarded && k + 2 == |b|)
    decreases |b| - i
  {
    if i + 1 == |b| then i
    else if i + 2 == |b| then
      if b[i + 1].free && (guarded ==> b[i].free) then i else |b|
    else if b[i].free then i
    else SearchFree(b, i + 1, guarded)
  }

  // ---- compaction ----

  function Join(a: Block, b: Block): Block {
    Block(a.addr, a.size + META + b.size, a.free)
  }

  /** What compaction leaves of the blocks from the one it starts at.  As coded (`guarded`
      false) a trailing free block is joined to the block before it even when that one is in
      use. */
  function Compact(b: seq<Block>, guarded: bool): (r: seq<Block>)
    decreases |b|
  {
    if |b| < 2 then b
    else if b[1].free && (b[0].free || (|b| == 2 && !guarded)) then Compact([Join(b[0], b[1])] + b[2..], guarded)
    else [b[0]] + Compact(b[1..], guarded)
  }

  lemma {:induction false} UsedFirst(b: seq<Block>, from: nat, to: nat)
    requires Tiles(b, from, to) && Used(b) != []
    ensures from <= Used(b)[0].addr
    ensures b != [] && (if b[0].free then b[0].End() <= Used(b)[0].addr && Used(b) == Used(b[1..])
            else Used(b)[0] == b[0])
  {
    if b[0].free {
      UsedFirst(b[1..], b[0].End(), to);
    }
  }

  /** Where the blocks in use are fixed, there is only one way to tile a segment without two
      adjacent free blocks. */
  lemma {:induction false} NormalUnique(b: seq<Block>, c: seq<Block>, from: nat, to: nat)
    requires Tiles(b, from, to) && Tiles(c, from, to)
    requires NoAdjacentFree(b) && NoAdjacentFree(c) && Used(b) == Used(c)
    ensures b == c
    decreases |b|
  {
    TilesBounds(b, from, to);
    TilesBounds(c, from, to);
    if b != [] && c != [] {
      SameHead(b, c, from, to);
      NormalUnique(b[1..], c[1..], b[0].End(), to);
      assert b == [b[0]] + b[1..] && c == [c[0]] + c[1..];
    }
  }

  lemma SameHead(b: seq<Block>, c: seq<Block>, from: nat, to: nat)
    requires b != [] && c != [] && Tiles(b, from, to) && Tiles(c, from, to)
    requires NoAdjacentFree(b) && NoAdjacentFree(c) && Used(b) == Used(c)
    ensures b[0] == c[0] && Used(b[1..]) == Used(c[1..]) && NoAdjacentFree(b[1..]) && NoAdjacentFree(c[1..])
  {
    if Used(b) != [] {
      UsedFirst(b, from, to);
      UsedFirst(c, from, to);
    }
    if b[0].free && c[0].free {
      FreeReaches(b, from, to);
      FreeReaches(c, from, to);
    }
  }

  /** A free block with no free neighbour reaches to the next block in use, or to the end. */
  lemma FreeReaches(b: seq<Block>, from: nat, to: nat)
    requires b != [] && Tiles(b, from, to) && NoAdjacentFree(b) && b[0].free
    ensures b[0].End() == if Used(b) == [] then to else Used(b)[0].addr
  {
    TilesBounds(b[1..], b[0].End(), to);
    if |b| > 1 {
      assert !b[1].free && b[1..][0] == b[1];
    }
  }

  /** Compaction gives that tiling: every maximal run of free blocks has become one, and
      nothing else has changed. */
  lemma CompactIsNormal(b: seq<Block>, c: seq<Block>, from: nat, to: nat)
    requires Tiles(b, from, to) && Tiles(c, from, to)
    ensures c == Compact(b, true) <==> NoAdjacentFree(c) && Used(c) == Used(b)
  {
    CompactShape(b, true, from, to);
    CompactSeparates(b, true);
    CompactUsed(b, true);
    if NoAdjacentFree(c) && Used(c) == Used(b) {
      NormalUnique(c, Compact(b, true), from, to);
    }
  }

  lemma {:induction false} CompactShape(b: seq<Block>, guarded: bool, from: nat, to: nat)
    requires Tiles(b, from, to)
    ensures Tiles(Compact(b, guarded), from, to)
    ensures b == [] <==> Compact(b, guarded) == []
    decreases |b|
  {
    if |b| >= 2 {
      if b[1].free && (b[0].free || (|b| == 2 && !guarded)) {
        var j := Join(b[0], b[1]);
        assert b[1..][1..] == b[2..];
        assert ([j] + b[2..])[1..] == b[2..];
        CompactShape([j] + b[2..], guarded, from, to);
      } else {
        CompactShape(b[1..], guarded, b[0].End(), to);
        assert ([b[0]] + Compact(b[1..], guarded))[1..] == Compact(b[1..], guarded);
      }
    }
  }

  lemma {:induction false} CompactHead(b: seq<Block>, guarded: bool)
    requires b != []
    ensures Compact(b, guarded) != []
    ensures Compact(b, guarded)[0].free == b[0].free && Compact(b, guarded)[0].addr == b[0].addr
    decreases |b|
  {
    if |b| >= 2 && b[1].free && (b[0].free || (|b| == 2 && !guarded)) {
      CompactHead([Join(b[0], b[1])] + b[2..], guarded);
    }
  }

  /** No two adjacent free blocks are left, in either form. */
  lemma {:induction false} CompactSeparates(b: seq<Block>, guarded: bool)
    ensures NoAdjacentFree(Compact(b, guarded))
    decreases |b|
  {
    if |b| >= 2 {
      if b[1].free && (b[0].free || (|b| == 2 && !guarded)) {
        CompactSeparates([Join(b[0], b[1])] + b[2..], guarded);
      } else {
        CompactSeparates(b[1..], guarded);
        CompactHead(b[1..], guarded);
        var r := Compact(b[1..], guarded);
        forall i, j | 0 <= i && j == i + 1 && j < |[b[0]] + r| ensures !(([b[0]] + r)[i].free && ([b[0]] + r)[j].free) {
          if i > 0 {
            assert !(r[i - 1].free && r[j - 1].free);
          }
        }
      }
    }
  }

  lemma {:induction false} CompactLast(b: seq<Block>)
    requires b != [] && b[|b| - 1].free
    ensures Compact(b, true) != [] && Compact(b, true)[|Compact(b, true)| - 1].free
    decreases |b|
  {
    if |b| >= 2 {
      if b[0].free && b[1].free {
        CompactLast([Join(b[0], b[1])] + b[2..]);
      } else {
        CompactLast(b[1..]);
      }
    }
  }

  /** Headers in use keep their address and never shrink. */
  ghost predicate Covers(u: seq<Block>, v: seq<Block>) {
    |u| == |v| && forall k :: 0 <= k < |u| ==>
      u[k].addr == v[k].addr && u[k].size <= v[k].size && !u[k].free && !v[k].free
  }

  lemma {:induction false} CompactUsed(b: seq<Block>, guarded: bool)
    ensures Covers(Used(b), Used(Compact(b, guarded)))
    ensures guarded ==> Used(Compact(b, guarded)) == Used(b)
    decreases |b|
  {
    if |b| >= 2 {
      if b[1].free && (b[0].free || (|b| == 2 && !guarded)) {
        var c := [Join(b[0], b[1])] + b[2..];
        CompactUsed(c, guarded);
        assert c[1..] == b[2..] == b[1..][1..];
      } else {
        CompactUsed(b[1..], guarded);
        assert ([b[0]] + Compact(b[1..], guarded))[1..] == Compact(b[1..], guarded);
      }
    } else if |b| == 1 {
      assert b[1..] == [];
    }
  }

  /** As coded, compaction is the guarded one exactly when no block in use comes right before a
      trailing free one. */
  lemma {:induction false} CompactAsCodedIff(b: seq<Block>)
    ensures Compact(b, false) == Compact(b, true) <==> |b| < 2 || b[|b| - 2].free || !b[|b| - 1].free
    decreases |b|
  {
    if |b| == 2 {
      assert b[1..] == [b[1]];
      assert Compact([b[1]], true) == [b[1]];
      if !b[0].free && b[1].free {
        assert |Compact(b, false)| == 1 && |Compact(b, true)| == 2;
      }
    } else if |b| > 2 {
      if b[0].free && b[1].free {
        CompactAsCodedIff([Join(b[0], b[1])] + b[2..]);
      } else {
        var x, y := Compact(b[1..], false), Compact(b[1..], true);
        CompactAsCodedIff(b[1..]);
        assert ([b[0]] + x)[1..] == x && ([b[0]] + y)[1..] == y;
        assert Compact(b, false) == [b[0]] + x && Compact(b, true) == [b[0]] + y;
      }
    }
  }

  /** Skipping to where `SearchFree` stops loses nothing: what is before it stays. */
  lemma {:induction false} CompactSkips(b: seq<Block>, i: nat, guarded: bool)
    requires i < |b| && (i + 1 == |b| ==> b[i].free)
    ensures var f := SearchFree(b, i, guarded);
            Compact(b[i..], guarded) == if f == |b| then b[i..] else b[i..f] + Compact(b[f..], guarded)
    decreases |b| - i
  {
    hide Compact;
    var f := SearchFree(b, i, guarded);
    var c := b[i..];
    assert c[1..] == b[i + 1..] && c[0] == b[i];
    if f == i {
      assert b[i..f] + Compact(c, guarded) == Compact(c, guarded);
    } else {
      CompactStep(c, guarded);
      if i + 2 == |b| {
        CompactOne(c[1..], guarded);
      } else {
        CompactSkips(b, i + 1, guarded);
        if f < |b| {
          assert [b[i]] + (b[i + 1..f] + Compact(b[f..], guarded)) == b[i..f] + Compact(b[f..], guarded);
        }
      }
    }
  }

  lemma SearchFreeIs(b: seq<Block>, i: nat, guarded: bool)
    requires i < |b| && (i + 1 == |b| ==> b[i].free)
    ensures SearchFree(b, i, guarded) ==
            if i + 1 == |b| then i
            else if i + 2 == |b| then if b[i + 1].free && (guarded ==> b[i].free) then i else |b|
            else if b[i].free then i else SearchFree(b, i + 1, guarded)
    ensures var k := SearchFree(b, i, guarded);
            i <= k <= |b| && (k < |b| ==> b[k].free || (!guarded && k + 2 == |b|))
  {
  }

  lemma SearchFitIs(b: seq<Block>, i: nat, need: nat)
    requires i < |b|
    ensures SearchFit(b, i, need) ==
            if i == |b| - 1 then if b[i].size >= need then i else |b|
            else if i + 1 == |b| - 1 then if b[i + 1].free && b[i + 1].size >= need then i + 1 else |b|
            else if b[i].free && b[i].size >= need then i
            else SearchFit(b, i + 1, need)
  {
  }

  lemma CompactStep(c: seq<Block>, guarded: bool)
    requires |c| >= 2 && !(c[1].free && (c[0].free || (|c| == 2 && !guarded)))
    ensures Compact(c, guarded) == [c[0]] + Compact(c[1..], guarded)
  {
  }

  lemma CompactJoin(c: seq<Block>, guarded: bool)
    requires |c| >= 2 && c[1].free && (c[0].free || (|c| == 2 && !guarded))
    ensures Compact(c, guarded) == Compact([Join(c[0], c[1])] + c[2..], guarded)
  {
  }

  lemma CompactOne(c: seq<Block>, guarded: bool)
    requires |c| < 2
    ensures Compact(c, guarded) == c
  {
  }

  // ---- allocation ----

  /** Pages added when no block fits: a first segment gets room for two headers, an existing
      one what its last block lacks. */
  function Growth(b: seq<Block>, size: nat, ps: nat): nat
    requires ps > 0
  {
    if b == [] then CeilDiv(size + 2 * META, ps)
    else if size + META < b[|b| - 1].size then 0
    else CeilDiv(size + META - b[|b| - 1].size, ps)
  }

  /** The new bytes go to the last block, which is (re)written free. */
  function Grow(b: seq<Block>, bytes: nat): seq<Block>
    requires b == [] ==> bytes >= META
  {
    if b == [] then [Block(0, bytes - META, true)]
    else b[|b| - 1 := Block(b[|b| - 1].addr, b[|b| - 1].size + bytes, true)]
  }

  const FAILED: nat := 0xFFFF_FFFF   // (uint32_t) -1

  /** What a request returns, whether it allocated, and the pages it added. */
  datatype Outcome = Outcome(result: nat, ok: bool, blocks: seq<Block>, pages: nat)

  predicate CapacityOk(size: int, room: int, ps: nat) {
    size + META <= room * ps
  }

  predicate Fits(b: seq<Block>, size: nat) {
    FirstFit(b, 0, size + META) < |b|
  }

  function Allocate(b: seq<Block>, size: nat): (nat, seq<Block>)
    requires Fits(b, size)
  {
    var k := FirstFit(b, 0, size + META);
    (b[k].Payload(), Split(b, k, size))
  }

  /** `memory_malloc`, with `room` free frames and swap slots. */
  function Malloc(b: seq<Block>, size: int, room: int, ps: nat): Outcome
    requires ps > 0
  {
    if size <= 0 then Outcome(0, false, b, 0)
    else if !CapacityOk(size, room, ps) then Outcome(FAILED, false, b, 0)
    else if Fits(b, size) then Outcome(Allocate(b, size).0, true, Allocate(b, size).1, 0)
    else
      var k := Growth(b, size, ps);
      GrowthSuffices(b, size, ps);
      var g := Grow(b, k * ps);
      if !CapacityOk(size, room - k, ps) then Outcome(FAILED, false, g, k)
      else Outcome(Allocate(g, size).0, true, Allocate(g, size).1, k)
  }

  /** `memory_malloc` case by case. */
  lemma MallocIs(b: seq<Block>, size: int, room: int, ps: nat)
    requires ps > 0
    ensures var o := Malloc(b, size, room, ps);
            if size <= 0 then o == Outcome(0, false, b, 0)
            else if !CapacityOk(size, room, ps) then o == Outcome(FAILED, false, b, 0)
            else if Fits(b, size) then o == Outcome(Allocate(b, size).0, true, Allocate(b, size).1, 0)
            else
              var k := Growth(b, size, ps);
              && (b == [] ==> k * ps >= META) && Fits(Grow(b, k * ps), size)
              && var p := Malloc(Grow(b, k * ps), size, room - k, ps);
                 o == p.(pages := k)
    ensures size > 0 ==> (Fits(b, size) <==> FirstFit(b, 0, size + META) < |b|)
  {
    if size > 0 && !Fits(b, size) {
      GrowthSuffices(b, size, ps);
    }
  }

  /** When the segment is lengthened, the pages to add and the size of its last block come out
      of the float arithmetic as they are. */
  predicate Counts(b: seq<Block>, size: nat, ps: nat)
    requires ps > 0
  {
    b == [] || size + META <= b[|b| - 1].size ||
    var was, lack := b[|b| - 1].size, size + META - b[|b| - 1].size;
    PagesMore(lack, ps) == CeilDiv(lack, ps) && Lengthened(CeilDiv(lack, ps), ps, was) == was + CeilDiv(lack, ps) * ps
  }

  /** They do for a last block that ends up with at most 2^24 bytes. */
  lemma SmallCounts(b: seq<Block>, size: nat, ps: nat)
    requires ps > 0 && (b != [] ==> b[|b| - 1].size + Growth(b, size, ps) * ps <= MANTISSA)
    ensures Counts(b, size, ps)
  {
    hide PagesMore, Lengthened, CeilDiv;
    if b != [] && b[|b| - 1].size < size + META {
      GrowthIsExact(size + META - b[|b| - 1].size, ps, b[|b| - 1].size);
    }
  }

  /** And beyond, with pages of a power of two and a last block and new pages whose sizes
      floats hold, exactly when the bytes lacking are not rounded to a page end on the wrong
      side of them and a float holds the sum. */
  lemma CountsIff(b: seq<Block>, size: nat, ps: nat)
    requires b != [] && b[|b| - 1].size < size + META && Power(ps) && ps > 0
    requires FloatOf(b[|b| - 1].size) == b[|b| - 1].size
             && FloatOf(Growth(b, size, ps) * ps) == Growth(b, size, ps) * ps
    ensures var was, lack, n := b[|b| - 1].size, size + META - b[|b| - 1].size, Growth(b, size, ps);
            Counts(b, size, ps) <==>
              && (FloatOf(lack) % ps != 0 || lack <= FloatOf(lack) < lack + ps)
              && (n * ps + was) % Ulp(n * ps + was) == 0
  {
    hide PagesMore, Lengthened, CeilDiv, FloatOf, Ulp, Power;
    var was, lack, n := b[|b| - 1].size, size + META - b[|b| - 1].size, Growth(b, size, ps);
    PagesMoreIff(lack, ps);
    PowerIsFloat(ps);
    LengthenedIff(n, ps, was);
  }

  /** What the headers of a lengthened segment say when `size` is what is stored in the last
      one: they tile it exactly when that is the size it has. */
  lemma StoredTilesIff(b: seq<Block>, limit: nat, bytes: nat, size: nat)
    requires b != [] && Tiles(b, 0, limit)
    ensures Tiles(b[|b| - 1 := Block(b[|b| - 1].addr, size, true)], 0, limit + bytes) <==>
            size == b[|b| - 1].size + bytes
  {
    var n, x := |b| - 1, Block(b[|b| - 1].addr, size, true);
    TilesOrder(b, 0, limit, n);
    var c := b[n := x];
    assert c[..n] == b[..n] && c == c[..n] + [x];
    if Tiles(c, 0, limit + bytes) {
      TilesOrder(c, 0, limit + bytes, n);
    }
    if size == b[n].size + bytes {
      TilesJoin(b[..n], [x], 0, x.addr, limit + bytes);
    }
  }

  /** With a last block of 3 bytes that gets 4096 pages of 4096, they do not. */
  lemma FloatBreaksTiling(b: seq<Block>, limit: nat)
    requires b != [] && Tiles(b, 0, limit) && b[|b| - 1].size == 3
    ensures !Tiles(b[|b| - 1 := Block(b[|b| - 1].addr, Lengthened(4096, 4096, 3), true)], 0, limit + 4096 * 4096)
  {
    OneByteTooMany();
    StoredTilesIff(b, limit, 4096 * 4096, Lengthened(4096, 4096, 3));
  }

  /** What `memory_malloc` needs so as to leave a frame or a swap slot to spare and, when it
      lengthens a segment, to compute the size of its last block exactly. */
  predicate Affordable(b: seq<Block>, size: int, room: int, ps: nat)
    requires ps > 0
  {
    size <= 0 || !CapacityOk(size, room, ps) || Fits(b, size) || (Growth(b, size, ps) < room && Counts(b, size, ps))
  }

  lemma AffordableIs(b: seq<Block>, size: int, room: int, ps: nat)
    requires ps > 0
    ensures Affordable(b, size, room, ps) <==>
              size <= 0 || !CapacityOk(size, room, ps) || Fits(b, size)
                || (Growth(b, size, ps) < room && Counts(b, size, ps))
  {
  }

  /** After growing, the retry's search succeeds: one retry is enough. */
  lemma GrowthSuffices(b: seq<Block>, size: nat, ps: nat)
    requires ps > 0 && !Fits(b, size) && size > 0
    ensures b == [] ==> Growth(b, size, ps) * ps >= META
    ensures Fits(Grow(b, Growth(b, size, ps) * ps), size)
    ensures b == [] || b[|b| - 1].free ==> Growth(b, size, ps) >= 1
  {
    var k := Growth(b, size, ps);
    if b == [] {
      CeilDivCovers(size + 2 * META, ps);
    } else if size + META >= b[|b| - 1].size {
      CeilDivCovers(size + META - b[|b| - 1].size, ps);
    }
    var g := Grow(b, k * ps);
    assert g[|g| - 1].free && g[|g| - 1].size >= size + META;
  }

  /** What passes the capacity check asks for more pages than there are free frames and slots
      exactly when it is a first request that leaves no room for the second header. */
  lemma GrowthExceedsIff(b: seq<Block>, size: nat, room: nat, ps: nat)
    requires ps > 0 && size > 0 && CapacityOk(size, room, ps)
    ensures Growth(b, size, ps) > room <==> b == [] && size + 2 * META > room * ps
  {
    var need := if b == [] then size + 2 * META else if size + META < b[|b| - 1].size then 0
      else size + META - b[|b| - 1].size;
    CeilDivCovers(need, ps);
    var k := CeilDiv(need, ps);
    if k <= room {
      Monotone(k, room, ps);
    } else if need > 0 {
      Monotone(room, k - 1, ps);
    }
  }

  /** A request whose growth leaves no frame or slot to spare fails in the retry, with the
      segment lengthened all the same. */
  lemma GrowthTakesLast(b: seq<Block>, size: nat, room: nat, ps: nat)
    requires ps > 0 && size > 0 && CapacityOk(size, room, ps) && !Fits(b, size) && Growth(b, size, ps) >= room
    ensures b == [] ==> Growth(b, size, ps) * ps >= META
    ensures Malloc(b, size, room, ps) ==
            Outcome(FAILED, false, Grow(b, Growth(b, size, ps) * ps), Growth(b, size, ps))
  {
    GrowthSuffices(b, size, ps);
    Monotone(room - Growth(b, size, ps), 0, ps);
  }

  ghost predicate Apart(x: Block, y: Block) {
    x.End() <= y.addr || y.End() <= x.addr
  }

  /** Any two live allocations are disjoint and inside the segment. */
  lemma LiveApart(b: seq<Block>, limit: nat, x: Block, y: Block)
    requires Tiles(b, 0, limit) && x in Live(b) && y in Live(b)
    ensures x == y || Apart(x, y)
    ensures x.End() <= limit
  {
    UsedMember(b, x);
    UsedMember(b, y);
    var i :| 0 <= i < |b| && b[i] == x;
    var j :| 0 <= j < |b| && b[j] == y;
    TilesOrder(b, 0, limit, i);
    TilesOrder(b, 0, limit, j);
  }

  /** An allocation adds one live block of the requested size, disjoint from all the others,
      which stay as they are. */
  lemma AllocateKeeps(b: seq<Block>, limit: nat, size: nat)
    requires HeapInv(b, limit) && Fits(b, size)
    ensures var (a, c) := Allocate(b, size);
            && HeapInv(c, limit)
            && a >= META
            && var x := Block(a - META, size, false);
               && x !in Live(b) && Live(c) == Live(b) + {x}
               && (forall y :: y in Live(b) ==> Apart(x, y))
               && Total(Used(c)) == Total(Used(b)) + size
  {
    var k := FirstFit(b, 0, size + META);
    var x := Block(b[k].addr, size, false);
    var c := Split(b, k, size);
    SplitTiles(b, 0, limit, k, size);
    SplitSeparates(b, k, size);
    SplitLive(b, k, size);
    hide Tiles, Used, Total, NoAdjacentFree, FirstFit, Live, Split;
    forall y | y in Live(b) ensures y != x && Apart(x, y) {
      UsedMember(b, y);
      var i :| 0 <= i < |b| && b[i] == y;
      TilesOrder(b, 0, limit, i);
      TilesOrder(b, 0, limit, k);
    }
  }

  lemma SplitLive(b: seq<Block>, k: nat, size: nat)
    requires k < |b| && b[k].free && size + META <= b[k].size
    ensures var x, c := Block(b[k].addr, size, false), Split(b, k, size);
            Live(c) == Live(b) + {x} && Total(Used(c)) == Total(Used(b)) + size
  {
    SplitUsed(b, k, size);
    hide Used, Total, Split;
    var x, front, back := Block(b[k].addr, size, false), Used(b[..k]), Used(b[k + 1..]);
    TotalConcat(front, back);
    TotalConcat(front, [x] + back);
    TotalCons(x, back);
  }

  lemma SplitSeparates(b: seq<Block>, k: nat, size: nat)
    requires NoAdjacentFree(b) && b != [] && b[|b| - 1].free && k < |b| && b[k].free && size + META <= b[k].size
    ensures NoAdjacentFree(Split(b, k, size)) && Split(b, k, size)[|b|].free
  {
    var c := Split(b, k, size);
    forall i, j | 0 <= i && j == i + 1 && j < |c| ensures !(c[i].free && c[j].free) {
      SplitAt(b, k, size, i);
      SplitAt(b, k, size, j);
    }
    SplitAt(b, k, size, |b|);
  }

  lemma SplitShape(b: seq<Block>, k: nat, size: nat)
    requires k < |b| && size + META <= b[k].size
    ensures var x, y := Block(b[k].addr, size, false), Block(b[k].addr + META + size, b[k].size - size - META, true);
            Split(b, k, size) == b[..k] + ([x] + ([y] + b[k + 1..]))
  {
    hide Split;
    var x, y := Block(b[k].addr, size, false), Block(b[k].addr + META + size, b[k].size - size - META, true);
    var r := b[..k] + ([x] + ([y] + b[k + 1..]));
    forall i | 0 <= i <= |b| ensures Split(b, k, size)[i] == r[i] {
      SplitAt(b, k, size, i);
    }
  }

  lemma SplitUsed(b: seq<Block>, k: nat, size: nat)
    requires k < |b| && b[k].free && size + META <= b[k].size
    ensures Used(b) == Used(b[..k]) + Used(b[k + 1..])
    ensures Used(Split(b, k, size)) == Used(b[..k]) + ([Block(b[k].addr, size, false)] + Used(b[k + 1..]))
  {
    var x, y := Block(b[k].addr, size, false), Block(b[k].addr + META + size, b[k].size - size - META, true);
    hide *;
    SplitShape(b, k, size);
    Middle(b, k);
    SplitParts(b[..k], b[k], x, y, b[k + 1..]);
  }

  lemma Middle(b: seq<Block>, k: nat)
    requires k < |b|
    ensures b == b[..k] + ([b[k]] + b[k + 1..])
  {
  }

  lemma SplitParts(a: seq<Block>, z: Block, x: Block, y: Block, rest: seq<Block>)
    requires z.free && !x.free && y.free
    ensures Used(a + ([z] + rest)) == Used(a) + Used(rest)
    ensures Used(a + ([x] + ([y] + rest))) == Used(a) + ([x] + Used(rest))
  {
    hide Used;
    UsedConcat(a, [z] + rest);
    UsedConcat(a, [x] + ([y] + rest));
    UsedCons(z, rest);
    UsedCons(y, rest);
    UsedCons(x, [y] + rest);
  }

  lemma GrowKeeps(b: seq<Block>, limit: nat, bytes: nat)
    requires if b == [] then limit == 0 && bytes >= META else HeapInv(b, limit)
    ensures HeapInv(Grow(b, bytes), limit + bytes) && Used(Grow(b, bytes)) == Used(b)
  {
    if b == [] {
      assert Grow(b, bytes)[1..] == [];
    } else {
      var n := |b| - 1;
      var c := Block(b[n].addr, b[n].size + bytes, true);
      TilesOrder(b, 0, limit, n);
      assert [c][1..] == [] && [b[n]][1..] == [];
      TilesJoin(b[..n], [c], 0, c.addr, limit + bytes);
      assert b[..n] + [c] == Grow(b, bytes) && b[..n] + [b[n]] == b;
      UsedConcat(b[..n], [c]);
      UsedConcat(b[..n], [b[n]]);
    }
  }

  /** `memory_free` of the block at index `k`: it is marked free and the list compacted. */
  function Release(b: seq<Block>, k: nat, guarded: bool): seq<Block>
    requires k < |b|
  {
    Compact(b[k := b[k].(free := true)], guarded)
  }

  lemma MarkedKeeps(b: seq<Block>, limit: nat, k: nat)
    requires Tiles(b, 0, limit) && k < |b| && !b[k].free
    ensures var d := b[k := b[k].(free := true)];
            Tiles(d, 0, limit) && Live(d) == Live(b) - {b[k]} && Total(Used(d)) == Total(Used(b)) - b[k].size
  {
    var m := b[k].(free := true);
    var d := b[k := m];
    TilesOrder(b, 0, limit, k);
    assert [m][1..] == [];
    TilesReplace(b, 0, limit, k, k + 1, [m]);
    assert d == b[..k] + [m] + b[k + 1..];
    hide *;
    MarkedUsed(b, k);
    var front, back := Used(b[..k]), Used(b[k + 1..]);
    TotalConcat(front, back);
    TotalCons(b[k], back);
    TotalConcat(front, [b[k]] + back);
    MarkedLive(b, limit, k);
  }

  lemma MarkedLive(b: seq<Block>, limit: nat, k: nat)
    requires Tiles(b, 0, limit) && k < |b| && !b[k].free
    ensures Live(b[k := b[k].(free := true)]) == Live(b) - {b[k]}
  {
    hide Tiles, Used;
    var d := b[k := b[k].(free := true)];
    forall y ensures y in Live(d) <==> y in Live(b) && y != b[k] {
      UsedMember(b, y);
      UsedMember(d, y);
      if y in d && !y.free {
        var i :| 0 <= i < |d| && d[i] == y;
        TilesOrder(b, 0, limit, if i < k then i else k);
        assert y in b;
      }
      if y in b && y != b[k] {
        var i :| 0 <= i < |b| && b[i] == y;
        assert d[i] == y;
      }
    }
  }

  lemma TotalCons(x: Block, u: seq<Block>)
    ensures Total([x] + u) == x.size + Total(u)
  {
    assert ([x] + u)[1..] == u;
  }

  /** Freeing a block (with the guard) removes it from the live ones and changes no other. */
  lemma ReleaseKeeps(b: seq<Block>, limit: nat, k: nat)
    requires HeapInv(b, limit) && k < |b| && !b[k].free
    ensures var c := Release(b, k, true);
            HeapInv(c, limit) && Live(c) == Live(b) - {b[k]} && Total(Used(c)) == Total(Used(b)) - b[k].size
  {
    hide Tiles, Used, Total, Compact, NoAdjacentFree;
    var d := b[k := b[k].(free := true)];
    MarkedKeeps(b, limit, k);
    CompactShape(d, true, 0, limit);
    CompactSeparates(d, true);
    CompactLast(d);
    CompactUsed(d, true);
  }

  /** As coded, a block in use right before the trailing free one is what compaction leaves
      last, stretched to the end of the segment. */
  lemma {:induction false} CompactAsCodedLast(b: seq<Block>)
    requires |b| >= 2 && !b[|b| - 2].free && b[|b| - 1].free
    ensures var c, x := Compact(b, false), b[|b| - 2];
            c != [] && c[|c| - 1] == Join(x, b[|b| - 1])
    decreases |b|
  {
    if |b| == 2 {
      CompactJoin(b, false);
      CompactOne([Join(b[0], b[1])] + b[2..], false);
    } else if b[0].free && b[1].free {
      CompactAsCodedLast([Join(b[0], b[1])] + b[2..]);
    } else {
      CompactAsCodedLast(b[1..]);
    }
  }

  /** As coded, freeing keeps the heap invariant exactly when the block freed is the one right
      before the trailing free block.  Otherwise the last block is in use afterwards, and the
      next growth, which marks the last block free, takes it from its owner. */
  lemma ReleaseAsCodedIff(b: seq<Block>, limit: nat, k: nat, bytes: nat)
    requires HeapInv(b, limit) && k < |b| && !b[k].free
    ensures HeapInv(Release(b, k, false), limit) <==> k + 2 == |b|
    ensures k + 2 != |b| ==>
              var c := Release(b, k, false); var x := b[|b| - 2];
              && c != [] && !x.free && c[|c| - 1] == Join(x, b[|b| - 1])
              && forall y :: y in Live(Grow(c, bytes)) ==> y.addr != x.addr
  {
    var d := b[k := b[k].(free := true)];
    MarkedKeeps(b, limit, k);
    if k + 2 == |b| {
      CompactAsCodedIff(d);
      ReleaseKeeps(b, limit, k);
    } else {
      CompactAsCodedLast(d);
      CompactShape(d, false, 0, limit);
      var c := Release(b, k, false);
      forall y | y in Live(Grow(c, bytes)) ensures y.addr != b[|b| - 2].addr {
        UsedMember(Grow(c, bytes), y);
        var i :| 0 <= i < |c| && Grow(c, bytes)[i] == y;
        TilesOrder(c, 0, limit, i);
      }
    }
  }

  lemma MarkedUsed(b: seq<Block>, k: nat)
    requires k < |b| && !b[k].free
    ensures Used(b) == Used(b[..k]) + ([b[k]] + Used(b[k + 1..]))
    ensures Used(b[k := b[k].(free := true)]) == Used(b[..k]) + Used(b[k + 1..])
  {
    var m := b[k].(free := true);
    var rest := b[k + 1..];
    assert b == b[..k] + ([b[k]] + rest);
    assert b[k := m] == b[..k] + ([m] + rest);
    hide Used;
    UsedConcat(b[..k], [b[k]] + rest);
    UsedConcat(b[..k], [m] + rest);
    UsedCons(b[k], rest);
    UsedCons(m, rest);
  }

  // ---- runs ----

  /** One program: its blocks, its segment's limit and its `using_memory`. */
  datatype Machine = Machine(blocks: seq<Block>, limit: nat, using: int)

  datatype Request = Alloc(size: int, room: nat) | Free(address: nat)

  /** Index of the block in use whose payload starts at `address`. */
  function IndexOf(b: seq<Block>, address: nat): (k: nat)
    ensures k <= |b|
    ensures k < |b| ==> !b[k].free && b[k].Payload() == address
    ensures k == |b| ==> forall x :: x in b && !x.free ==> x.Payload() != address
  {
    if b == [] then 0
    else if !b[0].free && b[0].Payload() == address then 0
    else 1 + IndexOf(b[1..], address)
  }

  ghost predicate Good(m: Machine) {
    && m.using == Total(Used(m.blocks))
    && if m.blocks == [] then m.limit == 0 else HeapInv(m.blocks, m.limit)
  }

  function Serve(m: Machine, rq: Request, ps: nat): Machine
    requires ps > 0
  {
    match rq
    case Alloc(size, room) =>
      var o := Malloc(m.blocks, size, room, ps);
      Machine(o.blocks, m.limit + o.pages * ps, m.using + if o.ok then size else 0)
    case Free(address) =>
      var k := IndexOf(m.blocks, address);
      if k == |m.blocks| then m
      else Machine(Release(m.blocks, k, true), m.limit, m.using - m.blocks[k].size)
  }

  function Run(m: Machine, rs: seq<Request>, ps: nat): Machine
    requires ps > 0
    decreases |rs|
  {
    if rs == [] then m else Run(Serve(m, rs[0], ps), rs[1..], ps)
  }

  /** A successful request adds exactly its block, disjoint from every live one; any other
      leaves the live blocks as they are. */
  lemma MallocKeeps(m: Machine, size: int, room: nat, ps: nat)
    requires Good(m) && ps > 0
    ensures var o := Malloc(m.blocks, size, room, ps);
            var m' := Machine(o.blocks, m.limit + o.pages * ps, m.using + if o.ok then size else 0);
            && Good(m')
            && if !o.ok then Live(o.blocks) == Live(m.blocks) && o.result in {0, FAILED} else
               && o.result >= META
               && var x := Block(o.result - META, size, false);
                  && x !in Live(m.blocks) && Live(o.blocks) == Live(m.blocks) + {x}
                  && (forall y :: y in Live(m.blocks) ==> Apart(x, y))
                  && x.End() <= m'.limit
  {
    hide Tiles, Used, Total, NoAdjacentFree, Allocate, FirstFit, Grow, Growth, CapacityOk;
    var b := m.blocks;
    if size > 0 && CapacityOk(size, room, ps) {
      if Fits(b, size) {
        AllocateKeeps(b, m.limit, size);
        AllocatedInside(b, m.limit, size);
      } else {
        var k := Growth(b, size, ps);
        GrowthSuffices(b, size, ps);
        GrowKeeps(b, m.limit, k * ps);
        if CapacityOk(size, room - k, ps) {
          AllocateKeeps(Grow(b, k * ps), m.limit + k * ps, size);
          AllocatedInside(Grow(b, k * ps), m.limit + k * ps, size);
        }
      }
    }
  }

  // ---- when a request succeeds, and what it gets ----

  ghost predicate HasFit(b: seq<Block>, need: int) {
    exists x :: x in b && x.free && x.size >= need
  }

  /** The free block of at least `need` bytes with the lowest address is at `addr`, or else the
      last block is. */
  ghost predicate TakenAt(b: seq<Block>, need: int, addr: int) {
    if HasFit(b, need) then
      && (exists x :: x in b && x.free && x.size >= need && x.addr == addr)
      && forall y :: y in b && y.free && y.size >= need ==> addr <= y.addr
    else addr == if b == [] then 0 else b[|b| - 1].addr
  }

  /** The fewest pages that hold what the last block lacks, or two headers and the bytes asked
      for when there is no block yet. */
  ghost predicate FewestPages(b: seq<Block>, size: int, pages: nat, ps: nat) {
    var lack := if b == [] then size + 10 else size + 5 - b[|b| - 1].size;
    pages > 0 && (pages - 1) * ps < lack <= pages * ps
  }

  /** A request fails exactly when it asks for more than is free in all, or has made the
      segment longer and asks for more than is left; otherwise it gets the lowest place. */
  lemma MallocExactly(b: seq<Block>, limit: nat, size: int, room: nat, ps: nat, limit': nat)
    requires ps > 0 && if b == [] then limit == 0 else HeapInv(b, limit)
    requires var o := Malloc(b, size, room, ps); o.ok ==> HeapInv(o.blocks, limit') && limit' < 0x1_0000_0000
    ensures var o := Malloc(b, size, room, ps);
            && (o.result == 0xFFFF_FFFF <==>
                 size > 0 && (size + 5 > room * ps || (!HasFit(b, size + 5) && size + 5 > (room - o.pages) * ps)))
            && (size <= 0 ==> o.result == 0)
            && (size > 0 && o.result != 0xFFFF_FFFF ==> TakenAt(b, size + 5, o.result - 5))
            && (if size > 0 && size + 5 <= room * ps && !HasFit(b, size + 5) then FewestPages(b, size, o.pages, ps)
                else o.pages == 0)
  {
    hide Tiles, Used, Total, NoAdjacentFree, Live;
    if size > 0 && CapacityOk(size, room, ps) {
      FitsIs(b, limit, size);
      if Fits(b, size) {
        Below(b, limit', size);
      } else {
        var k := Growth(b, size, ps);
        GrowthSuffices(b, size, ps);
        GrowthFewest(b, limit, size, ps);
        if CapacityOk(size, room - k, ps) {
          Below(Grow(b, k * ps), limit', size);
          LastTaken(b, size, k * ps);
        }
      }
    }
  }

  lemma FitsIs(b: seq<Block>, limit: nat, size: nat)
    requires b != [] ==> HeapInv(b, limit)
    ensures Fits(b, size) <==> HasFit(b, size + META)
    ensures Fits(b, size) ==> TakenAt(b, size + META, Allocate(b, size).0 - META)
  {
    var k := FirstFit(b, 0, size + META);
    if k < |b| {
      assert b[k] in b;
      forall y | y in b && y.free && y.size >= size + META ensures b[k].addr <= y.addr {
        var i :| 0 <= i < |b| && b[i] == y;
        TilesOrder(b, 0, limit, k);
        TilesOrder(b, 0, limit, i);
      }
    }
  }

  lemma OkBlocks(b: seq<Block>, size: int, room: nat, ps: nat)
    requires ps > 0
    ensures Malloc(b, size, room, ps).ok ==> Malloc(b, size, room, ps).blocks != []
  {
  }

  lemma Below(b: seq<Block>, limit': nat, size: nat)
    requires Fits(b, size) && size > 0 && HeapInv(Allocate(b, size).1, limit')
    ensures Allocate(b, size).0 + size <= limit'
  {
    var k := FirstFit(b, 0, size + META);
    var c := Split(b, k, size);
    SplitAt(b, k, size, k);
    TilesOrder(c, 0, limit', k);
  }

  lemma GrowthFewest(b: seq<Block>, limit: nat, size: nat, ps: nat)
    requires ps > 0 && size > 0 && !Fits(b, size) && (b != [] ==> HeapInv(b, limit))
    ensures FewestPages(b, size, Growth(b, size, ps), ps)
  {
    var lack := if b == [] then size + 10 else size + 5 - b[|b| - 1].size;
    assert lack > 0;
    CeilDivCovers(lack, ps);
  }

  lemma LastTaken(b: seq<Block>, size: nat, bytes: nat)
    requires !Fits(b, size) && (b == [] ==> bytes >= META) && Fits(Grow(b, bytes), size)
    ensures Allocate(Grow(b, bytes), size).0 == if b == [] then META else b[|b| - 1].addr + META
  {
    var g := Grow(b, bytes);
    var k := FirstFit(g, 0, size + META);
    assert b != [] ==> forall i :: 0 <= i < |b| - 1 ==> g[i] == b[i];
  }

  lemma AllocatedInside(b: seq<Block>, limit: nat, size: nat)
    requires HeapInv(b, limit) && Fits(b, size)
    ensures Allocate(b, size).0 + size <= limit
  {
    TilesOrder(b, 0, limit, FirstFit(b, 0, size + META));
  }

  lemma ServeKeeps(m: Machine, rq: Request, ps: nat)
    requires Good(m) && ps > 0
    ensures Good(Serve(m, rq, ps))
    ensures forall x :: x in Live(m.blocks) && !(rq.Free? && rq.address == x.Payload()) ==>
            x in Live(Serve(m, rq, ps).blocks)
    ensures rq.Free? ==> forall x :: x in Live(Serve(m, rq, ps).blocks) ==>
            x in Live(m.blocks) && x.Payload() != rq.address
  {
    hide Malloc, Release, Total, Used, Tiles, NoAdjacentFree;
    match rq
    case Alloc(size, room) =>
      MallocKeeps(m, size, room, ps);
    case Free(address) =>
      var k := IndexOf(m.blocks, address);
      UsedNone();
      forall x | x in Live(m.blocks) && x.Payload() == address ensures k < |m.blocks| && x == m.blocks[k] {
        UsedMember(m.blocks, x);
        OneAt(m.blocks, m.limit, x, k);
      }
      if k < |m.blocks| {
        ReleaseKeeps(m.blocks, m.limit, k);
      }
  }

  lemma UsedNone()
    ensures Used([]) == []
  {
  }

  lemma OneAt(b: seq<Block>, limit: nat, x: Block, k: nat)
    requires b != [] ==> HeapInv(b, limit)
    requires x in b && !x.free && k == IndexOf(b, x.Payload())
    ensures k < |b| && b[k] == x
  {
    var i :| 0 <= i < |b| && b[i] == x;
    TilesOrder(b, 0, limit, i);
    TilesOrder(b, 0, limit, k);
  }

  /** The heap invariant and the accounting hold after every run of requests. */
  lemma {:induction false} RunKeeps(m: Machine, rs: seq<Request>, ps: nat)
    requires Good(m) && ps > 0
    ensures Good(Run(m, rs, ps))
    decreases |rs|
  {
    if rs != [] {
      ServeKeeps(m, rs[0], ps);
      RunKeeps(Serve(m, rs[0], ps), rs[1..], ps);
    }
  }

  /** A live allocation stays, with its address and size, until a request frees it. */
  lemma {:induction false} LiveUntilFreed(m: Machine, rs: seq<Request>, ps: nat, x: Block)
    requires Good(m) && ps > 0 && x in Live(m.blocks)
    requires forall r :: r in rs && r.Free? ==> r.address != x.Payload()
    ensures x in Live(Run(m, rs, ps).blocks)
    decreases |rs|
  {
    if rs != [] {
      ServeKeeps(m, rs[0], ps);
      LiveUntilFreed(Serve(m, rs[0], ps), rs[1..], ps, x);
    }
  }

  // ---- runs as coded ----

  /** A request with `memory_free` as coded, without the guard in the compaction. */
  function ServeAsCoded(m: Machine, rq: Request, ps: nat): Machine
    requires ps > 0
  {
    match rq
    case Alloc(_, _) => Serve(m, rq, ps)
    case Free(address) =>
      var k := IndexOf(m.blocks, address);
      if k == |m.blocks| then m
      else Machine(Release(m.blocks, k, false), m.limit, m.using - m.blocks[k].size)
  }

  function RunAsCoded(m: Machine, rs: seq<Request>, ps: nat): Machine
    requires ps > 0
    decreases |rs|
  {
    if rs == [] then m else RunAsCoded(ServeAsCoded(m, rs[0], ps), rs[1..], ps)
  }

  /** All states of the coded run are in order. */
  ghost predicate GoodThroughout(m: Machine, rs: seq<Request>, ps: nat)
    requires ps > 0
    decreases |rs|
  {
    Good(m) && (rs != [] ==> GoodThroughout(ServeAsCoded(m, rs[0], ps), rs[1..], ps))
  }

  /** Nothing is freed but the block right before the last one. */
  predicate FreesLast(m: Machine, rq: Request) {
    rq.Free? ==> IndexOf(m.blocks, rq.address) == |m.blocks| || IndexOf(m.blocks, rq.address) + 2 == |m.blocks|
  }

  /** Every free of the coded run is of that block. */
  predicate AlwaysFreesLast(m: Machine, rs: seq<Request>, ps: nat)
    requires ps > 0
    decreases |rs|
  {
    rs != [] ==> FreesLast(m, rs[0]) && AlwaysFreesLast(ServeAsCoded(m, rs[0], ps), rs[1..], ps)
  }

  lemma ServeAsCodedIff(m: Machine, rq: Request, ps: nat)
    requires Good(m) && ps > 0
    ensures Good(ServeAsCoded(m, rq, ps)) <==> FreesLast(m, rq)
    ensures FreesLast(m, rq) ==> ServeAsCoded(m, rq, ps) == Serve(m, rq, ps)
  {
    ServeKeeps(m, rq, ps);
    if rq.Free? && IndexOf(m.blocks, rq.address) < |m.blocks| {
      var k := IndexOf(m.blocks, rq.address);
      ReleaseAsCodedIff(m.blocks, m.limit, k, 0);
      CompactAsCodedIff(m.blocks[k := m.blocks[k].(free := true)]);
    }
    hide Tiles, Used, Total, Compact, NoAdjacentFree, Malloc, Grow, Live;
  }

  /** The coded allocator keeps the heap in order throughout a run exactly when every free of
      the run is of the block right before the trailing free one; the run is then the one with
      the guard. */
  lemma {:induction false} RunAsCodedIff(m: Machine, rs: seq<Request>, ps: nat)
    requires Good(m) && ps > 0
    ensures GoodThroughout(m, rs, ps) <==> AlwaysFreesLast(m, rs, ps)
    ensures GoodThroughout(m, rs, ps) ==> RunAsCoded(m, rs, ps) == Run(m, rs, ps)
    decreases |rs|
  {
    if rs != [] {
      ServeAsCodedIff(m, rs[0], ps);
      var n := ServeAsCoded(m, rs[0], ps);
      if FreesLast(m, rs[0]) {
        RunAsCodedIff(n, rs[1..], ps);
      } else {
        assert !Good(n);
      }
    }
    hide Good, Serve, ServeAsCoded, FreesLast;
  }
}
