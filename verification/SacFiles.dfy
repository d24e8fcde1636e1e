/** What a SAC file holds: a two-level index of 4096-byte blocks. */
module SacFiles {
  import opened Bytes
  import opened Sequences
  import opened FlatMemory

  const BLOCK: nat := 4096      // BLOQUE_SIZE
  const POINTERS: nat := 1024   // PUNTEROS_A_BLOQUES_DATOS
  const INDIRECT: nat := 1000   // BLKINDIRECT

  const HALF: nat := 0x8000_0000   // offsets are turned into ints

  type Disk = seq<seq<byte>>

  /** A file: its size, its pointers to pointer blocks, and the blocks it uses, data blocks in
      file order and pointer blocks. */
  datatype File = File(size: nat, indirect: seq<nat>, data: seq<nat>, ptrs: seq<nat>)

  ghost predicate DiskOk(disk: Disk) {
    |disk| <= WORD && forall b :: 0 <= b < |disk| ==> |disk[b]| == BLOCK
  }

  /** The k-th pointer of a pointer block. */
  function Pointer(block: seq<byte>, k: nat): (n: nat)
    requires |block| == BLOCK && k < POINTERS
    ensures n < WORD
  {
    DecodeWord(block[4 * k..4 * k + 4])
  }

  function SetPointer(block: seq<byte>, k: nat, n: nat): (r: seq<byte>)
    requires |block| == BLOCK && k < POINTERS && n < WORD
    ensures |r| == BLOCK
  {
    Splice(block, 4 * k, EncodeWord(n))
  }

  lemma PointerSet(block: seq<byte>, k: nat, n: nat, j: nat)
    requires |block| == BLOCK && k < POINTERS && n < WORD && j < POINTERS
    ensures Pointer(SetPointer(block, k, n), j) == if j == k then n else Pointer(block, j)
  {
    var r := SetPointer(block, k, n);
    if j == k {
      WordRoundTrip(n);
      assert r[4 * k..4 * k + 4] == EncodeWord(n);
    } else {
      assert r[4 * j..4 * j + 4] == block[4 * j..4 * j + 4];
    }
  }

  /** How many data blocks a file of that size has: an empty one already has its first. */
  function DataBlocks(size: nat): nat {
    if size == 0 then 1 else (size + BLOCK - 1) / BLOCK
  }

  function PointerBlocks(n: nat): nat {
    (n + POINTERS - 1) / POINTERS
  }

  /** The i-th data block is where the index says. */
  ghost predicate Indexed(f: File, disk: Disk, i: nat)
    requires DiskOk(disk) && i < |f.data|
  {
    && i / POINTERS < |f.ptrs| && f.ptrs[i / POINTERS] < |disk|
    && Pointer(disk[f.ptrs[i / POINTERS]], i % POINTERS) == f.data[i]
  }

  ghost predicate Linked(f: File, disk: Disk) {
    && DiskOk(disk) && |f.indirect| == INDIRECT
    && |f.ptrs| == PointerBlocks(|f.data|) < INDIRECT
    && (forall j :: 0 <= j < |f.ptrs| ==> f.indirect[j] == f.ptrs[j])
    && (forall i :: 0 <= i < |f.data| ==> f.data[i] < |disk| && Indexed(f, disk, i))
  }

  /** All blocks of the file. */
  function Blocks(f: File): seq<nat> {
    f.data + f.ptrs
  }

  /** The file's blocks are its own, in the data area and marked as used. */
  ghost predicate Marked(f: File, used: seq<bool>, first: nat) {
    && Distinct(Blocks(f))
    && forall b :: b in Blocks(f) ==> first <= b < |used| && used[b]
  }

  /** The bitmap has a bit for each block of the disk; bits that it has beyond are set. */
  ghost predicate Backs(used: seq<bool>, disk: Disk) {
    |disk| <= |used| && forall b :: |disk| <= b < |used| ==> used[b]
  }

  ghost predicate FileOk(f: File, disk: Disk, used: seq<bool>, first: nat) {
    && Backs(used, disk) && Linked(f, disk) && Marked(f, used, first)
    && |f.data| == DataBlocks(f.size) && f.size <= HALF
    && f.indirect[|f.ptrs|] == 0
  }

  function Map(disk: Disk): (m: map<nat, seq<byte>>)
    ensures forall b :: b in m <==> 0 <= b < |disk|
    ensures forall b :: b in m ==> m[b] == disk[b]
  {
    map b: nat | b < |disk| :: disk[b]
  }

  lemma LinkedBacked(f: File, disk: Disk)
    requires Linked(f, disk)
    ensures Backed(f.data, Map(disk), BLOCK)
  {
  }

  /** All the bytes of the file's data blocks, one block after the other. */
  ghost function AllBytes(f: File, disk: Disk): (m: seq<byte>)
    requires Linked(f, disk)
    ensures |m| == |f.data| * BLOCK
  {
    LinkedBacked(f, disk);
    Flat(f.data, Map(disk), BLOCK)
  }

  lemma Enough(f: File)
    requires |f.data| == DataBlocks(f.size)
    ensures f.size <= |f.data| * BLOCK
  {
  }

  /** The byte sequence that the file stands for. */
  ghost function Contents(f: File, disk: Disk): (c: seq<byte>)
    requires Linked(f, disk) && |f.data| == DataBlocks(f.size)
    ensures |c| == f.size
  {
    Enough(f);
    AllBytes(f, disk)[..f.size]
  }

  /** What is done to blocks that are not the file's does not touch it. */
  lemma FileFrame(f: File, disk: Disk, used: seq<bool>, first: nat, disk': Disk, used': seq<bool>)
    requires FileOk(f, disk, used, first) && DiskOk(disk') && |disk'| == |disk| && Backs(used', disk')
    requires forall b :: b in Blocks(f) && b < |disk| ==> disk'[b] == disk[b] && used'[b]
    ensures FileOk(f, disk', used', first) && Contents(f, disk') == Contents(f, disk)
  {
    LinkedFrame(f, disk, disk');
    BlocksInside(f, disk);
    hide Linked, Contents, Distinct, DataBlocks, Blocks;
  }

  lemma LinkedFrame(f: File, disk: Disk, disk': Disk)
    requires Linked(f, disk) && |f.data| == DataBlocks(f.size) && DiskOk(disk') && |disk'| == |disk|
    requires forall b :: b in Blocks(f) && b < |disk| ==> disk'[b] == disk[b]
    ensures Linked(f, disk') && Contents(f, disk') == Contents(f, disk)
  {
    forall i | 0 <= i < |f.data| ensures Indexed(f, disk', i) {
      assert Indexed(f, disk, i);
      assert f.ptrs[i / POINTERS] in Blocks(f);
    }
    forall i | 0 <= i < |f.data| ensures f.data[i] in Blocks(f) && Map(disk')[f.data[i]] == Map(disk)[f.data[i]] {
      assert Blocks(f)[i] == f.data[i];
    }
    LinkedBacked(f, disk);
    FlatSame(f.data, Map(disk), Map(disk'), BLOCK);
  }

  lemma BlocksInside(f: File, disk: Disk)
    requires Linked(f, disk)
    ensures forall b :: b in Blocks(f) ==> b < |disk|
  {
    forall j | 0 <= j < |f.ptrs| ensures f.ptrs[j] < |disk| {
      assert Indexed(f, disk, j * POINTERS);
    }
  }

  // ---- adding a block ----

  function Zeros(): (z: seq<byte>)
    ensures |z| == BLOCK
  {
    seq(BLOCK, i => 0 as byte)
  }

  /** Whether the next data block needs a pointer block of its own. */
  predicate NeedsPointers(f: File) {
    |f.data| % POINTERS == 0
  }

  /** Whether the index has room for one more data block, and for the mark after it. */
  predicate Fits(f: File) {
    NeedsPointers(f) ==> |f.ptrs| + 1 < INDIRECT
  }

  /** `agregar_nodo`: data block `b` is added, and pointer block `pb` when one is needed. */
  function WithBlock(f: File, b: nat, pb: nat): File
    requires |f.indirect| == INDIRECT && Fits(f)
  {
    if NeedsPointers(f) then
      f.(data := f.data + [b], ptrs := f.ptrs + [pb], indirect := f.indirect[|f.ptrs| := pb][|f.ptrs| + 1 := 0])
    else f.(data := f.data + [b])
  }

  function WithPointer(f: File, disk: Disk, b: nat, pb: nat): (d: Disk)
    requires DiskOk(disk) && b < WORD && pb < |disk|
    requires !NeedsPointers(f) ==> |f.data| / POINTERS < |f.ptrs| && f.ptrs[|f.data| / POINTERS] == pb
    ensures DiskOk(d) && |d| == |disk|
  {
    disk[pb := SetPointer(if NeedsPointers(f) then Zeros() else disk[pb], |f.data| % POINTERS, b)]
  }

  /** The pointer block that the next data block goes to. */
  ghost predicate GoesTo(f: File, disk: Disk, b: nat, pb: nat)
    requires Linked(f, disk)
  {
    && b < |disk| && b !in Blocks(f) && Fits(f)
    && if NeedsPointers(f) then pb < |disk| && pb !in Blocks(f) && pb != b
       else pb == f.ptrs[|f.data| / POINTERS]
  }

  lemma LastPointers(f: File, disk: Disk)
    requires Linked(f, disk)
    ensures NeedsPointers(f) ==> |f.ptrs| == |f.data| / POINTERS
    ensures !NeedsPointers(f) ==> |f.data| / POINTERS == |f.ptrs| - 1 && f.ptrs[|f.data| / POINTERS] < |disk|
  {
    if !NeedsPointers(f) {
      assert Indexed(f, disk, |f.data| - 1);
    }
  }

  lemma NewIndexed(f: File, disk: Disk, b: nat, pb: nat)
    requires Linked(f, disk) && GoesTo(f, disk, b, pb)
    ensures pb < |disk| && DiskOk(WithPointer(f, disk, b, pb))
    ensures var g := WithBlock(f, b, pb); Indexed(g, WithPointer(f, disk, b, pb), |f.data|)
  {
    LastPointers(f, disk);
    PointerSet(if NeedsPointers(f) then Zeros() else disk[pb], |f.data| % POINTERS, b, |f.data| % POINTERS);
  }

  lemma OldIndexed(f: File, disk: Disk, b: nat, pb: nat, i: nat)
    requires Linked(f, disk) && GoesTo(f, disk, b, pb) && Distinct(f.ptrs) && i < |f.data|
    ensures pb < |disk| && DiskOk(WithPointer(f, disk, b, pb))
    ensures var g := WithBlock(f, b, pb); Indexed(g, WithPointer(f, disk, b, pb), i)
  {
    LastPointers(f, disk);
    assert Indexed(f, disk, i);
    var n := |f.data|;
    if f.ptrs[i / POINTERS] == pb {
      assert pb in Blocks(f);
      if !NeedsPointers(f) {
        assert i / POINTERS == n / POINTERS;
        PointerSet(disk[pb], n % POINTERS, b, i % POINTERS);
      }
    }
  }

  lemma AddedIndexed(f: File, disk: Disk, b: nat, pb: nat, i: nat)
    requires Linked(f, disk) && GoesTo(f, disk, b, pb) && Distinct(f.ptrs) && i <= |f.data|
    ensures pb < |disk| && DiskOk(WithPointer(f, disk, b, pb))
    ensures var g := WithBlock(f, b, pb); Indexed(g, WithPointer(f, disk, b, pb), i) && g.data[i] < |disk|
  {
    AddedShape(f, disk, b, pb);
    hide Indexed, WithBlock, WithPointer;
    if i < |f.data| {
      OldIndexed(f, disk, b, pb, i);
    } else {
      NewIndexed(f, disk, b, pb);
    }
  }

  lemma AddedShape(f: File, disk: Disk, b: nat, pb: nat)
    requires Linked(f, disk) && GoesTo(f, disk, b, pb)
    ensures pb < |disk|
    ensures var g, d := WithBlock(f, b, pb), WithPointer(f, disk, b, pb);
            && DiskOk(d) && |d| == |disk| && |g.indirect| == INDIRECT && g.data == f.data + [b]
            && |g.ptrs| == PointerBlocks(|g.data|) < INDIRECT
            && (forall j :: 0 <= j < |g.ptrs| ==> g.indirect[j] == g.ptrs[j])
            && (forall x :: 0 <= x < |disk| && x != pb ==> d[x] == disk[x])
  {
    LastPointers(f, disk);
  }

  lemma IsLinked(f: File, disk: Disk)
    requires DiskOk(disk) && |f.indirect| == INDIRECT && |f.ptrs| == PointerBlocks(|f.data|) < INDIRECT
    requires forall j :: 0 <= j < |f.ptrs| ==> f.indirect[j] == f.ptrs[j]
    requires forall i :: 0 <= i < |f.data| ==> f.data[i] < |disk| && Indexed(f, disk, i)
    ensures Linked(f, disk)
  {
  }

  lemma AllBytesIs(f: File, disk: Disk)
    requires Linked(f, disk)
    ensures Backed(f.data, Map(disk), BLOCK) && AllBytes(f, disk) == Flat(f.data, Map(disk), BLOCK)
    ensures DiskOk(disk) && forall i :: 0 <= i < |f.data| ==> f.data[i] < |disk|
  {
    LinkedBacked(f, disk);
  }

  /** The index of the longer file, and its bytes: those of the file and of the new block. */
  lemma AddedLinked(f: File, disk: Disk, b: nat, pb: nat)
    requires Linked(f, disk) && GoesTo(f, disk, b, pb) && Distinct(Blocks(f))
    ensures pb < |disk| && DiskOk(disk) && b < |disk|
    ensures var g, d := WithBlock(f, b, pb), WithPointer(f, disk, b, pb);
            Linked(g, d) && AllBytes(g, d) == AllBytes(f, disk) + disk[b]
  {
    GoesApart(f, disk, b, pb);
    DistinctParts(f);
    hide *;
    AddedShape(f, disk, b, pb);
    AllBytesIs(f, disk);
    var g, d := WithBlock(f, b, pb), WithPointer(f, disk, b, pb);
    forall i | 0 <= i < |g.data| ensures g.data[i] < |d| && Indexed(g, d, i) {
      AddedIndexed(f, disk, b, pb, i);
    }
    IsLinked(g, d);
    AllBytesIs(g, d);
    MapSize(disk, b);
    FlatGrow(f.data, Map(disk), BLOCK, b, Map(d));
  }

  lemma MapSize(disk: Disk, b: nat)
    requires DiskOk(disk) && b < |disk|
    ensures |disk[b]| == BLOCK
  {
  }

  lemma GoesApart(f: File, disk: Disk, b: nat, pb: nat)
    requires Linked(f, disk) && GoesTo(f, disk, b, pb) && Distinct(Blocks(f))
    ensures b !in f.data && b != pb && b < |disk| && pb < |disk|
    ensures forall i :: 0 <= i < |f.data| ==> f.data[i] != pb
  {
    LastPointers(f, disk);
    forall i | 0 <= i < |f.data| ensures f.data[i] != pb && f.data[i] != b {
      NotAPointer(f, disk, pb, i);
      assert f.data[i] in Blocks(f);
    }
    if !NeedsPointers(f) {
      assert Blocks(f)[|f.data| + |f.data| / POINTERS] == pb;
    }
  }

  lemma DistinctParts(f: File)
    requires Distinct(Blocks(f))
    ensures Distinct(f.data) && Distinct(f.ptrs)
    ensures forall i, j :: 0 <= i < |f.data| && 0 <= j < |f.ptrs| ==> f.data[i] != f.ptrs[j]
  {
    var u := Blocks(f);
    forall i, j | 0 <= i < j < |f.data| ensures f.data[i] != f.data[j] {
      assert u[i] != u[j];
    }
    forall i, j | 0 <= i < j < |f.ptrs| ensures f.ptrs[i] != f.ptrs[j] {
      assert u[|f.data| + i] != u[|f.data| + j];
    }
    forall i, j | 0 <= i < |f.data| && 0 <= j < |f.ptrs| ensures f.data[i] != f.ptrs[j] {
      assert u[i] != u[|f.data| + j];
    }
  }

  lemma NotAPointer(f: File, disk: Disk, pb: nat, i: nat)
    requires Linked(f, disk) && Distinct(Blocks(f)) && i < |f.data|
    requires if NeedsPointers(f) then pb !in Blocks(f)
             else |f.data| / POINTERS < |f.ptrs| && pb == f.ptrs[|f.data| / POINTERS]
    ensures f.data[i] != pb
  {
    DistinctParts(f);
    assert f.data[i] in Blocks(f);
  }

  // ---- writing into a data block ----

  lemma WrittenLinked(f: File, disk: Disk, i: nat, at: nat, chunk: seq<byte>)
    requires Linked(f, disk) && Distinct(Blocks(f)) && i < |f.data| && at + |chunk| <= BLOCK
    ensures f.data[i] < |disk|
    ensures var d := disk[f.data[i] := Splice(disk[f.data[i]], at, chunk)];
            Linked(f, d) && i * BLOCK + at + |chunk| <= |f.data| * BLOCK
            && AllBytes(f, d) == Splice(AllBytes(f, disk), i * BLOCK + at, chunk)
  {
    DistinctParts(f);
    var d := disk[f.data[i] := Splice(disk[f.data[i]], at, chunk)];
    forall k | 0 <= k < |f.data| ensures Indexed(f, d, k) {
      assert Indexed(f, disk, k);
    }
    LinkedBacked(f, disk);
    FlatWrite(f.data, Map(disk), BLOCK, i, at, chunk);
    assert Map(d) == Map(disk)[f.data[i] := Splice(Map(disk)[f.data[i]], at, chunk)];
  }

  // ---- appending ----

  lemma SpliceTail(m: seq<byte>, at: nat, chunk: seq<byte>)
    requires at + |chunk| <= |m|
    ensures Splice(m, at, chunk)[..at + |chunk|] == m[..at] + chunk
  {
  }

  /** Writing up to the byte before `p + |chunk|` of the blocks. */
  lemma WrittenTail(f: File, disk: Disk, i: nat, at: nat, chunk: seq<byte>)
    requires Linked(f, disk) && Distinct(Blocks(f)) && i < |f.data| && at + |chunk| <= BLOCK
    ensures f.data[i] < |disk| && DiskOk(disk)
    ensures var d, p := disk[f.data[i] := Splice(disk[f.data[i]], at, chunk)], i * BLOCK + at;
            && Linked(f, d) && p + |chunk| <= |AllBytes(f, disk)| == |AllBytes(f, d)|
            && AllBytes(f, d)[..p + |chunk|] == AllBytes(f, disk)[..p] + chunk
  {
    WrittenLinked(f, disk, i, at, chunk);
    SpliceTail(AllBytes(f, disk), i * BLOCK + at, chunk);
  }

  lemma Resized(f: File, disk: Disk, size: nat)
    requires Linked(f, disk) && |f.data| == DataBlocks(size)
    ensures var g := f.(size := size);
            && Linked(g, disk) && |g.data| == DataBlocks(g.size) && Blocks(g) == Blocks(f)
            && size <= |AllBytes(f, disk)| && Contents(g, disk) == AllBytes(f, disk)[..size]
  {
    var g := f.(size := size);
    forall i | 0 <= i < |g.data| ensures Indexed(g, disk, i) {
      assert Indexed(f, disk, i);
    }
    Enough(g);
  }

  /** Writing into the last block, right where the file ends, appends to its contents. */
  lemma WrittenAtEnd(f: File, disk: Disk, i: nat, at: nat, chunk: seq<byte>)
    requires Linked(f, disk) && |f.data| == DataBlocks(f.size) && Distinct(Blocks(f))
    requires i < |f.data| && i * BLOCK + at == f.size && at + |chunk| <= BLOCK && |chunk| > 0
    ensures f.data[i] < |disk| && DiskOk(disk)
    ensures var d := disk[f.data[i] := Splice(disk[f.data[i]], at, chunk)];
            var g := f.(size := f.size + |chunk|);
            && Linked(g, d) && |g.data| == DataBlocks(g.size) && Blocks(g) == Blocks(f)
            && Contents(g, d) == Contents(f, disk) + chunk
  {
    BlocksGrow(f, i, at, |chunk|);
    hide *;
    WrittenTail(f, disk, i, at, chunk);
    TailIn(f, disk, disk[f.data[i] := Splice(disk[f.data[i]], at, chunk)], chunk);
  }

  /** `chunk` follows the file's bytes on `d`: the longer file has them all. */
  lemma TailIn(f: File, disk: Disk, d: Disk, chunk: seq<byte>)
    requires Linked(f, disk) && Linked(f, d) && |f.data| == DataBlocks(f.size) == DataBlocks(f.size + |chunk|)
    requires f.size + |chunk| <= |AllBytes(f, disk)| == |AllBytes(f, d)|
    requires AllBytes(f, d)[..f.size + |chunk|] == AllBytes(f, disk)[..f.size] + chunk
    ensures var g := f.(size := f.size + |chunk|);
            && Linked(g, d) && |g.data| == DataBlocks(g.size) && Blocks(g) == Blocks(f)
            && Contents(g, d) == Contents(f, disk) + chunk
  {
    hide *;
    ContentsIs(f, disk);
    Resized(f, d, f.size + |chunk|);
  }

  lemma BlocksGrow(f: File, i: nat, at: nat, n: nat)
    requires |f.data| == DataBlocks(f.size) && i < |f.data| && i * BLOCK + at == f.size && at + n <= BLOCK && n > 0
    ensures |f.data| == DataBlocks(f.size + n)
  {
  }

  lemma ContentsIs(f: File, disk: Disk)
    requires Linked(f, disk) && |f.data| == DataBlocks(f.size)
    ensures f.size <= |AllBytes(f, disk)| && Contents(f, disk) == AllBytes(f, disk)[..f.size]
  {
    Enough(f);
  }

  /** A full file gets a block and the first bytes of it: `g` on disk `e`. */
  lemma WrittenInNew(f: File, disk: Disk, b: nat, pb: nat, chunk: seq<byte>, g: File, e: Disk)
    requires Linked(f, disk) && |f.data| == DataBlocks(f.size) && f.size == |f.data| * BLOCK && Distinct(Blocks(f))
             && GoesTo(f, disk, b, pb)
    requires 0 < |chunk| <= BLOCK
    requires !NeedsPointers(f) ==> |f.data| / POINTERS < |f.ptrs| && f.ptrs[|f.data| / POINTERS] == pb
    requires |f.indirect| == INDIRECT && Fits(f) && pb < |disk| && b < |disk| && b < WORD
    requires g == WithBlock(f, b, pb).(size := f.size + |chunk|)
    requires var d := WithPointer(f, disk, b, pb); e == d[b := Splice(d[b], 0, chunk)]
    ensures Linked(g, e) && |g.data| == DataBlocks(g.size) && Distinct(Blocks(g))
    ensures Contents(g, e) == Contents(f, disk) + chunk
  {
    hide *;
    GoesIs(f, disk, b, pb);
    AddedFacts(f, disk, b, pb);
    WrittenFirst(WithBlock(f, b, pb), WithPointer(f, disk, b, pb), |f.data|, chunk, e);
  }

  /** The first bytes of the last block of `h`. */
  lemma WrittenFirst(h: File, d: Disk, n: nat, chunk: seq<byte>, e: Disk)
    requires Linked(h, d) && Distinct(Blocks(h)) && |h.data| == n + 1 && h.size == n * BLOCK && 0 < |chunk| <= BLOCK
    requires h.data[n] < |d| && e == d[h.data[n] := Splice(d[h.data[n]], 0, chunk)]
    ensures var g := h.(size := h.size + |chunk|);
            && Linked(g, e) && |g.data| == DataBlocks(g.size) && Blocks(g) == Blocks(h)
            && h.size <= |AllBytes(h, d)| && Contents(g, e) == AllBytes(h, d)[..h.size] + chunk
  {
    WrittenTail(h, d, n, 0, chunk);
    Resized(h, e, h.size + |chunk|);
  }

  /** The file with its new block, before anything is written there. */
  lemma AddedFacts(f: File, disk: Disk, b: nat, pb: nat)
    requires Linked(f, disk) && |f.data| == DataBlocks(f.size) && f.size == |f.data| * BLOCK && Distinct(Blocks(f))
             && GoesTo(f, disk, b, pb)
    requires pb < |disk| && b < |disk| && b < WORD && |f.indirect| == INDIRECT && Fits(f)
    requires !NeedsPointers(f) ==> |f.data| / POINTERS < |f.ptrs| && f.ptrs[|f.data| / POINTERS] == pb
    ensures var h, d := WithBlock(f, b, pb), WithPointer(f, disk, b, pb);
            && Linked(h, d) && Distinct(Blocks(h)) && h.size == f.size && |h.data| == |f.data| + 1
            && h.data[|f.data|] == b
            && f.size <= |AllBytes(h, d)| && AllBytes(h, d)[..f.size] == Contents(f, disk)
  {
    AddedLinked(f, disk, b, pb);
    AddedShape(f, disk, b, pb);
    AddedDistinct(f, disk, b, pb);
    SameSize(f, b, pb);
    ContentsIs(f, disk);
    hide *;
    WholeOf(AllBytes(f, disk), disk[b]);
  }

  lemma WholeOf(m: seq<byte>, x: seq<byte>)
    ensures (m + x)[..|m|] == m && m[..|m|] == m
  {
  }

  lemma GoesIs(f: File, disk: Disk, b: nat, pb: nat)
    requires Linked(f, disk) && GoesTo(f, disk, b, pb)
    ensures pb < |disk| && DiskOk(disk) && b < |disk| && |f.indirect| == INDIRECT && Fits(f)
    ensures |AllBytes(f, disk)| == |f.data| * BLOCK
    ensures !NeedsPointers(f) ==> |f.data| / POINTERS < |f.ptrs| && f.ptrs[|f.data| / POINTERS] == pb
  {
    LastPointers(f, disk);
  }

  lemma SameSize(f: File, b: nat, pb: nat)
    requires |f.indirect| == INDIRECT && Fits(f)
    ensures WithBlock(f, b, pb).size == f.size
  {
  }

  lemma AddedDistinct(f: File, disk: Disk, b: nat, pb: nat)
    requires Linked(f, disk) && Distinct(Blocks(f)) && GoesTo(f, disk, b, pb)
    ensures Fits(f) && Distinct(Blocks(WithBlock(f, b, pb)))
    ensures forall x :: x in Blocks(WithBlock(f, b, pb)) <==> x in Blocks(f) || x == b || (NeedsPointers(f) && x == pb)
  {
    DistinctParts(f);
    var g := WithBlock(f, b, pb);
    var u, v := Blocks(f), Blocks(g);
    forall x ensures x in v <==> x in u || x == b || (NeedsPointers(f) && x == pb) {
      assert v == f.data + [b] + g.ptrs;
    }
    forall i, j | 0 <= i < j < |v| ensures v[i] != v[j] {
      AddedApart(f, b, pb, i, j);
    }
  }

  lemma AddedApart(f: File, b: nat, pb: nat, i: nat, j: nat)
    requires |f.indirect| == INDIRECT && Fits(f) && Distinct(Blocks(f)) && b !in Blocks(f)
    requires NeedsPointers(f) ==> pb !in Blocks(f) && pb != b
    requires i < j < |Blocks(WithBlock(f, b, pb))|
    ensures Blocks(WithBlock(f, b, pb))[i] != Blocks(WithBlock(f, b, pb))[j]
  {
    AddedAt(f, b, pb, i);
    AddedAt(f, b, pb, j);
    hide WithBlock, NeedsPointers;
    var u, n := Blocks(f), |f.data|;
    if i != n && i <= |u| {
      assert u[if i < n then i else i - 1] in u;
    }
    if j != n && j <= |u| {
      assert u[if j < n then j else j - 1] in u;
    }
  }

  lemma AddedAt(f: File, b: nat, pb: nat, k: nat)
    requires |f.indirect| == INDIRECT && Fits(f) && k < |Blocks(WithBlock(f, b, pb))|
    ensures var u, n := Blocks(f), |f.data|;
            Blocks(WithBlock(f, b, pb))[k] == if k < n then u[k] else if k == n then b else if k <= |u| then u[k - 1]
              else pb
    ensures k <= |Blocks(f)| || (NeedsPointers(f) && k == |Blocks(f)| + 1)
  {
  }

  // ---- the bitmap ----

  /** Unused blocks from `first` on: `cantidad_bloques_libres`. */
  function FreeFrom(used: seq<bool>, first: nat): (n: nat)
    requires first <= |used|
    ensures n > 0 <==> exists b :: first <= b < |used| && !used[b]
    decreases |used| - first
  {
    if first == |used| then 0 else FreeFrom(used, first + 1) + if used[first] then 0 else 1
  }

  lemma {:induction false} TakeFree(used: seq<bool>, first: nat, b: nat)
    requires first <= b < |used| && !used[b]
    ensures FreeFrom(used[b := true], first) == FreeFrom(used, first) - 1
    decreases |used| - first
  {
    if first < b {
      TakeFree(used, first + 1, b);
    } else {
      SameFree(used, used[b := true], first + 1);
    }
  }

  lemma {:induction false} SameFree(used: seq<bool>, used': seq<bool>, first: nat)
    requires first <= |used| == |used'| && used[first..] == used'[first..]
    ensures FreeFrom(used, first) == FreeFrom(used', first)
    decreases |used| - first
  {
    if first < |used| {
      assert used[first] == used[first..][0] == used'[first..][0] == used'[first];
      assert used[first + 1..] == used[first..][1..];
      assert used'[first + 1..] == used'[first..][1..];
      SameFree(used, used', first + 1);
    }
  }

  // ---- where `setear_posicion` looks ----

  /** An offset as an int. */
  function AsInt(off: nat): int {
    var low := off % WORD;
    if low < HALF then low else low - WORD
  }

  /** C's division, which truncates. */
  function DivC(a: int, b: nat): int
    requires b > 0
  {
    if a >= 0 then a / b else -(-a / b)
  }

  /** The index of the pointer block. */
  function Number(off: nat): int {
    DivC(AsInt(off), BLOCK * POINTERS)
  }

  /** The position in it. */
  function Position(off: nat): int {
    DivC(AsInt(off) - Number(off) * (BLOCK * POINTERS), BLOCK)
  }

  /** Below 2^31 these are the block's place in the file; at 2^31 the index is negative. */
  lemma PlaceOf(off: nat)
    ensures off < HALF ==> Number(off) == off / BLOCK / POINTERS && Position(off) == off / BLOCK % POINTERS
    ensures Number(HALF) == -512 && Position(HALF) == 0
  {
  }

  /** Words of a node: index -k of a node is index NODE - k of the node before it. */
  const NODE: nat := 1024

  /** A node's index after its neighbour has put a pointer block and the mark in it. */
  ghost predicate Overwritten(was: seq<nat>, now: seq<nat>, pb: nat) {
    |was| == INDIRECT && now == was[512 := pb][513 := 0]
  }

  ghost predicate Damaged(was: seq<nat>, now: seq<nat>, first: nat) {
    exists pb :: first <= pb && Overwritten(was, now, pb)
  }

  lemma OverwrittenIs(was: seq<nat>, now: seq<nat>, first: nat, pb: nat)
    requires first <= pb && Overwritten(was, now, pb)
    ensures Damaged(was, now, first)
  {
  }

  /** A file of more than 2^31 bytes needs the 513th pointer of its index. */
  lemma BigNeedsIndex(f: File, disk: Disk, used: seq<bool>, first: nat)
    requires first > 0 && f.size > HALF && Linked(f, disk) && Marked(f, used, first) && |f.data| == DataBlocks(f.size)
    ensures f.indirect[512] != 0
  {
    assert Blocks(f)[|f.data| + 512] == f.ptrs[512];
    assert f.ptrs[512] in Blocks(f);
  }

  /** Whatever is taken for its blocks. */
  lemma LostIsUnreadable(size: nat, indirect: seq<nat>, disk: Disk, used: seq<bool>, first: nat)
    requires first > 0 && size > HALF && |indirect| == INDIRECT && indirect[512] == 0
    ensures forall data, ptrs ::
              && Linked(File(size, indirect, data, ptrs), disk)
              && Marked(File(size, indirect, data, ptrs), used, first)
              ==> |data| != DataBlocks(size)
  {
    forall data, ptrs | Linked(File(size, indirect, data, ptrs), disk)
      && Marked(File(size, indirect, data, ptrs), used, first)
      ensures |data| != DataBlocks(size)
    {
      if |data| == DataBlocks(size) {
        BigNeedsIndex(File(size, indirect, data, ptrs), disk, used, first);
      }
    }
  }

  // ---- what a request leaves alone ----

  /** Whatever was used by others than the file that had `own` is as it was, and the file,
      which has `own'` now, has taken none of it. */
  ghost predicate Unharmed(disk: Disk, used: seq<bool>, own: seq<nat>, disk': Disk, used': seq<bool>, own': seq<nat>) {
    && |disk'| == |disk| <= |used'| == |used|
    && (forall b :: 0 <= b < |disk| && used[b] && b !in own ==> disk'[b] == disk[b] && used'[b] && b !in own')
    && forall b :: |disk| <= b < |used| && used[b] ==> used'[b]
  }

  lemma UnharmedTwice(a: Disk, u: seq<bool>, own: seq<nat>, b: Disk, v: seq<bool>, own': seq<nat>, c: Disk,
                      w: seq<bool>, own'': seq<nat>)
    requires Unharmed(a, u, own, b, v, own') && Unharmed(b, v, own', c, w, own'')
    ensures Unharmed(a, u, own, c, w, own'')
  {
  }

  /** The bytes of one block of the file. */
  lemma ReadChunk(f: File, disk: Disk, i: nat, at: nat, n: nat)
    requires Linked(f, disk) && |f.data| == DataBlocks(f.size) && i < |f.data| && at + n <= BLOCK
             && i * BLOCK + at + n <= f.size
    ensures f.data[i] < |disk| && |disk[f.data[i]]| == BLOCK
    ensures Contents(f, disk)[i * BLOCK + at..i * BLOCK + at + n] == disk[f.data[i]][at..at + n]
  {
    LinkedBacked(f, disk);
    FlatPage(f.data, Map(disk), BLOCK, i, at, at + n);
    Enough(f);
    SliceOfSlice(AllBytes(f, disk), 0, f.size, i * BLOCK + at, i * BLOCK + at + n);
  }

  /** Blocks that appending up to `size` bytes in all still takes. */
  function Needed(f: File, size: nat): int {
    DataBlocks(size) - |f.data| + PointerBlocks(DataBlocks(size)) - |f.ptrs|
  }

  /** The blocks that a file of this size has. */
  function BlocksFor(size: nat): nat {
    DataBlocks(size) + PointerBlocks(DataBlocks(size))
  }

  lemma BlocksForIs(f: File, disk: Disk)
    requires Linked(f, disk) && |f.data| == DataBlocks(f.size)
    ensures |Blocks(f)| == |f.data| + |f.ptrs| == BlocksFor(f.size)
  {
  }

  // ---- what one round of `escribir_archivo` does ----

  lemma GoodFacts(f: File, disk: Disk, used: seq<bool>, first: nat)
    requires FileOk(f, disk, used, first)
    ensures Linked(f, disk) && Marked(f, used, first) && Distinct(Blocks(f)) && Backs(used, disk) && |disk| <= |used|
            && DiskOk(disk) && f.size <= HALF
    ensures |f.data| == DataBlocks(f.size) && |f.indirect| == INDIRECT && f.indirect[|f.ptrs|] == 0
    ensures forall b :: b in Blocks(f) ==> first <= b < |used| && used[b]
    ensures |f.ptrs| == PointerBlocks(|f.data|) < INDIRECT
  {
  }

  lemma UnharmedByTwo(disk: Disk, used: seq<bool>, own: seq<nat>, d: Disk, e: Disk, used': seq<bool>, own': seq<nat>,
                      b: nat, pb: nat)
    requires |disk| == |d| == |e| <= |used| == |used'| && b < |disk| && pb < |disk|
    requires forall x :: 0 <= x < |disk| && x != pb ==> d[x] == disk[x]
    requires forall x :: 0 <= x < |disk| && x != b ==> e[x] == d[x]
    requires forall x :: 0 <= x < |used| && used[x] ==> used'[x]
    requires forall x :: x in own' ==> x in own || x == b || x == pb
    requires !used[b] && (!used[pb] || pb in own)
    ensures Unharmed(disk, used, own, e, used', own')
  {
  }

  /** How the bitmap and the index change when a file gets block `b`. */
  ghost predicate Taken(f: File, used: seq<bool>, first: nat, b: nat, pb: nat, used': seq<bool>) {
    && first <= b < |used| && !used[b] && Fits(f) && |f.indirect| == INDIRECT
    && if NeedsPointers(f) then first <= pb < |used| && !used[b := true][pb] && used' == used[b := true][pb := true]
       else
         && |f.data| / POINTERS < |f.ptrs| && pb == f.ptrs[|f.data| / POINTERS] && pb < |used|
         && used' == used[b := true]
  }

  lemma TakenFacts(f: File, used: seq<bool>, first: nat, b: nat, pb: nat, used': seq<bool>)
    requires Taken(f, used, first, b, pb, used')
    ensures b < |used| && pb < |used| && |used'| == |used| && Fits(f) && |f.indirect| == INDIRECT && first <= b
            && !used[b]
    ensures forall x :: 0 <= x < |used| && used[x] ==> used'[x]
    ensures used'[b] && (NeedsPointers(f) ==> used'[pb] && first <= pb)
    ensures NeedsPointers(f) ==> !used[pb]
    ensures !NeedsPointers(f) ==> |f.data| / POINTERS < |f.ptrs| && pb == f.ptrs[|f.data| / POINTERS] && pb in Blocks(f)
  {
    if !NeedsPointers(f) {
      assert Blocks(f)[|f.data| + |f.data| / POINTERS] == pb;
    }
  }

  lemma TakenGoes(f: File, disk: Disk, used: seq<bool>, first: nat, b: nat, pb: nat, used': seq<bool>)
    requires FileOk(f, disk, used, first) && Taken(f, used, first, b, pb, used')
    ensures GoesTo(f, disk, b, pb)
  {
  }

  /** The file with its new block written: `g` on disk `e`. */
  ghost predicate IsNew(f: File, disk: Disk, b: nat, pb: nat, chunk: seq<byte>, g: File, e: Disk) {
    && DiskOk(disk) && b < WORD && b < |disk| && pb < |disk| && |chunk| <= BLOCK
    && |f.indirect| == INDIRECT && Fits(f)
    && (!NeedsPointers(f) ==> |f.data| / POINTERS < |f.ptrs| && f.ptrs[|f.data| / POINTERS] == pb)
    && g == WithBlock(f, b, pb).(size := f.size + |chunk|)
    && e == WithPointer(f, disk, b, pb)[b := Splice(WithPointer(f, disk, b, pb)[b], 0, chunk)]
  }

  lemma NewContents(f: File, disk: Disk, b: nat, pb: nat, chunk: seq<byte>, g: File, e: Disk)
    requires Linked(f, disk) && |f.data| == DataBlocks(f.size) && f.size == |f.data| * BLOCK && Distinct(Blocks(f))
             && GoesTo(f, disk, b, pb)
    requires IsNew(f, disk, b, pb, chunk, g, e) && 0 < |chunk|
    ensures Linked(g, e) && |g.data| == DataBlocks(g.size) && Distinct(Blocks(g))
    ensures Contents(g, e) == Contents(f, disk) + chunk
  {
    WrittenInNew(f, disk, b, pb, chunk, g, e);
  }

  lemma NewShape(f: File, disk: Disk, b: nat, pb: nat, chunk: seq<byte>, g: File, e: Disk)
    requires Linked(f, disk) && GoesTo(f, disk, b, pb) && Distinct(Blocks(f)) && IsNew(f, disk, b, pb, chunk, g, e)
             && f.indirect[|f.ptrs|] == 0
    ensures |e| == |disk| && |g.indirect| == INDIRECT && |g.ptrs| < INDIRECT && g.indirect[|g.ptrs|] == 0
    ensures forall x :: x in Blocks(g) ==> x in Blocks(f) || x == b || (NeedsPointers(f) && x == pb)
    ensures |WithPointer(f, disk, b, pb)| == |disk|
    ensures forall x :: 0 <= x < |disk| && x != pb ==> WithPointer(f, disk, b, pb)[x] == disk[x]
    ensures forall x :: 0 <= x < |disk| && x != b ==> e[x] == WithPointer(f, disk, b, pb)[x]
    ensures Needed(g, 0) == Needed(f, 0) - if NeedsPointers(f) then 2 else 1
  {
    AddedDistinct(f, disk, b, pb);
    AddedShape(f, disk, b, pb);
    AddedEnd(f, b, pb);
    SameSize(f, b, pb);
    assert Blocks(g) == Blocks(WithBlock(f, b, pb));
  }

  lemma AddedEnd(f: File, b: nat, pb: nat)
    requires |f.indirect| == INDIRECT && Fits(f) && |f.ptrs| < INDIRECT && f.indirect[|f.ptrs|] == 0
    ensures var g := WithBlock(f, b, pb); |g.indirect| == INDIRECT && g.indirect[|g.ptrs|] == 0
  {
  }

  /** The file is in order again once its new block has been written. */
  lemma NewIsOk(f: File, disk: Disk, used: seq<bool>, first: nat, b: nat, pb: nat, chunk: seq<byte>, g: File, e: Disk,
                used': seq<bool>)
    requires FileOk(f, disk, used, first) && f.size == |f.data| * BLOCK < HALF && 0 < |chunk|
    requires Taken(f, used, first, b, pb, used') && IsNew(f, disk, b, pb, chunk, g, e)
    ensures FileOk(g, e, used', first) && Contents(g, e) == Contents(f, disk) + chunk
    ensures Unharmed(disk, used, Blocks(f), e, used', Blocks(g))
    ensures Needed(g, 0) == Needed(f, 0) - if NeedsPointers(f) then 2 else 1
  {
    hide *;
    GoodFacts(f, disk, used, first);
    TakenGoes(f, disk, used, first, b, pb, used');
    IsNewFacts(f, disk, b, pb, chunk, g, e);
    StillBacks(disk, used, e, used');
    TakenFacts(f, used, first, b, pb, used');
    NewContents(f, disk, b, pb, chunk, g, e);
    NewShape(f, disk, b, pb, chunk, g, e);
    UnharmedByTwo(disk, used, Blocks(f), WithPointer(f, disk, b, pb), e, used', Blocks(g), b, pb);
    IsOk(g, e, used', first);
  }

  lemma IsNewFacts(f: File, disk: Disk, b: nat, pb: nat, chunk: seq<byte>, g: File, e: Disk)
    requires IsNew(f, disk, b, pb, chunk, g, e)
    ensures DiskOk(disk) && b < WORD && b < |disk| && pb < |disk| && |f.indirect| == INDIRECT && Fits(f)
            && |e| == |disk|
    ensures f.size == |f.data| * BLOCK < HALF ==> g.size <= HALF
    ensures !NeedsPointers(f) ==> |f.data| / POINTERS < |f.ptrs| && f.ptrs[|f.data| / POINTERS] == pb
  {
    NewSizes(f, disk, b, pb, chunk, g, e);
    if f.size == |f.data| * BLOCK < HALF {
      WholeBlocks(|f.data|, |chunk|);
    }
    hide WithPointer, WithBlock, NeedsPointers, DiskOk, Fits;
  }

  lemma NewSizes(f: File, disk: Disk, b: nat, pb: nat, chunk: seq<byte>, g: File, e: Disk)
    requires IsNew(f, disk, b, pb, chunk, g, e)
    ensures |e| == |disk| && g.size == f.size + |chunk| && |chunk| <= BLOCK
  {
    hide NeedsPointers, DiskOk, Fits;
  }

  lemma WholeBlocks(n: nat, k: nat)
    requires n * BLOCK < HALF && k <= BLOCK
    ensures n * BLOCK + k <= HALF
  {
  }

  lemma StillBacks(disk: Disk, used: seq<bool>, e: Disk, used': seq<bool>)
    ensures && Backs(used, disk) && |e| == |disk| && |used'| == |used|
            && (forall x :: 0 <= x < |used| && used[x] ==> used'[x])
            ==> Backs(used', e)
  {
  }

  lemma IsOk(g: File, e: Disk, used: seq<bool>, first: nat)
    requires Backs(used, e) && g.size <= HALF && Linked(g, e) && |g.data| == DataBlocks(g.size) && Distinct(Blocks(g))
    requires |g.indirect| == INDIRECT && |g.ptrs| < INDIRECT && g.indirect[|g.ptrs|] == 0
    requires forall x :: x in Blocks(g) ==> first <= x < |used| && used[x]
    ensures FileOk(g, e, used, first)
  {
  }

  /** The file is in order again after a write into the block where it ends. */
  lemma OldIsOk(f: File, disk: Disk, used: seq<bool>, first: nat, i: nat, at: nat, chunk: seq<byte>, g: File, e: Disk)
    requires FileOk(f, disk, used, first) && i < |f.data| && i * BLOCK + at == f.size && at + |chunk| <= BLOCK
             && |chunk| > 0
    requires f.data[i] < |disk| && DiskOk(disk) && e == disk[f.data[i] := Splice(disk[f.data[i]], at, chunk)]
    requires g == f.(size := f.size + |chunk|)
    ensures FileOk(g, e, used, first) && Contents(g, e) == Contents(f, disk) + chunk
    ensures Unharmed(disk, used, Blocks(f), e, used, Blocks(g)) && Needed(g, 0) == Needed(f, 0)
  {
    WrittenAtEnd(f, disk, i, at, chunk);
    assert Blocks(f)[i] == f.data[i];
    hide Linked, Contents, DataBlocks, Splice, Distinct;
  }

  lemma UnharmedSame(disk: Disk, used: seq<bool>, own: seq<nat>)
    requires |disk| <= |used|
    ensures Unharmed(disk, used, own, disk, used, own)
  {
  }

  /** A block that was obtained but not added to the file is lost, to no file's harm. */
  lemma LeakedOk(f: File, disk: Disk, used: seq<bool>, first: nat, b: nat)
    requires FileOk(f, disk, used, first) && first <= b < |used|
    ensures FileOk(f, disk, used[b := true], first) && Unharmed(disk, used, Blocks(f), disk, used[b := true], Blocks(f))
  {
  }

  lemma IsTaken(f: File, used: seq<bool>, first: nat, b: nat, pb: nat, used': seq<bool>)
    requires first <= b < |used| && !used[b] && Fits(f) && |f.indirect| == INDIRECT
    requires if NeedsPointers(f) then
               && first <= pb < |used| && !used[b := true][pb]
               && used' == used[b := true][pb := true]
             else
               && |f.data| / POINTERS < |f.ptrs| && pb == f.ptrs[|f.data| / POINTERS] && pb < |used|
               && used' == used[b := true]
    ensures Taken(f, used, first, b, pb, used')
  {
  }

  lemma IsNewWhen(f: File, disk: Disk, b: nat, pb: nat, chunk: seq<byte>, g: File, e: Disk)
    requires DiskOk(disk) && b < WORD && b < |disk| && pb < |disk| && |chunk| <= BLOCK
    requires |f.indirect| == INDIRECT && Fits(f)
    requires !NeedsPointers(f) ==> |f.data| / POINTERS < |f.ptrs| && f.ptrs[|f.data| / POINTERS] == pb
    requires |WithPointer(f, disk, b, pb)| == |disk| && |WithPointer(f, disk, b, pb)[b]| == BLOCK
    requires g == WithBlock(f, b, pb).(size := f.size + |chunk|)
    requires e == WithPointer(f, disk, b, pb)[b := Splice(WithPointer(f, disk, b, pb)[b], 0, chunk)]
    ensures IsNew(f, disk, b, pb, chunk, g, e)
  {
  }

  // ---- all the rounds of `escribir_archivo` ----

  /** `bytes` have been appended to the file `f`, which is `g` now. */
  ghost predicate Appended(f: File, disk: Disk, used: seq<bool>, first: nat, bytes: seq<byte>, g: File, disk': Disk,
                           used': seq<bool>) {
    && Backs(used, disk) && Linked(f, disk) && |f.data| == DataBlocks(f.size) && |f.ptrs| == PointerBlocks(|f.data|)
    && FileOk(g, disk', used', first) && first <= |used| == |used'|
    && g.size == f.size + |bytes| && Contents(g, disk') == Contents(f, disk) + bytes
    && Unharmed(disk, used, Blocks(f), disk', used', Blocks(g))
    && Needed(f, 0) - Needed(g, 0) == FreeFrom(used, first) - FreeFrom(used', first)
  }

  lemma AppendedFacts(f: File, disk: Disk, used: seq<bool>, first: nat, bytes: seq<byte>, g: File, disk': Disk,
                      used': seq<bool>)
    requires Appended(f, disk, used, first, bytes, g, disk', used')
    ensures Linked(f, disk) && |f.data| == DataBlocks(f.size) && Linked(g, disk') && |g.data| == DataBlocks(g.size)
    ensures FileOk(g, disk', used', first) && Contents(g, disk') == Contents(f, disk) + bytes
            && g.size == f.size + |bytes|
    ensures Unharmed(disk, used, Blocks(f), disk', used', Blocks(g)) && first <= |used| == |used'|
  {
  }

  lemma NothingAppended(f: File, disk: Disk, used: seq<bool>, first: nat)
    requires FileOk(f, disk, used, first) && first <= |used|
    ensures Appended(f, disk, used, first, [], f, disk, used)
  {
    assert Contents(f, disk) + [] == Contents(f, disk);
  }

  lemma OneAppended(f: File, disk: Disk, used: seq<bool>, first: nat, bytes: seq<byte>, g: File, disk': Disk,
                    used': seq<bool>)
    requires FileOk(f, disk, used, first) && FileOk(g, disk', used', first) && first <= |used| == |used'|
    requires Linked(f, disk) && |f.data| == DataBlocks(f.size) && Linked(g, disk') && |g.data| == DataBlocks(g.size)
    requires g.size == f.size + |bytes| && Contents(g, disk') == Contents(f, disk) + bytes
    requires Unharmed(disk, used, Blocks(f), disk', used', Blocks(g))
    requires Needed(f, 0) - Needed(g, 0) == FreeFrom(used, first) - FreeFrom(used', first)
    ensures Appended(f, disk, used, first, bytes, g, disk', used')
  {
  }

  lemma MoreAppended(f: File, disk: Disk, used: seq<bool>, first: nat, buf: seq<byte>, done: nat, g: File, d: Disk,
                     u: seq<bool>, chunk: seq<byte>, h: File, e: Disk, v: seq<bool>)
    requires done + |chunk| <= |buf| && chunk == buf[done..done + |chunk|]
    requires Appended(f, disk, used, first, buf[..done], g, d, u) && Appended(g, d, u, first, chunk, h, e, v)
    ensures Appended(f, disk, used, first, buf[..done + |chunk|], h, e, v) && h.size == f.size + done + |chunk|
  {
    hide Linked, FileOk, FreeFrom, Needed, DataBlocks, Contents;
    UnharmedTwice(disk, used, Blocks(f), d, u, Blocks(g), e, v, Blocks(h));
    assert buf[..done + |chunk|] == buf[..done] + chunk;
    assert Contents(f, disk) + buf[..done] + chunk == Contents(f, disk) + (buf[..done] + chunk);
  }

  /** What has been appended fitted, and what has not does not fit any more. */
  lemma AppendedFits(f: File, disk: Disk, used: seq<bool>, first: nat, bytes: seq<byte>, g: File, disk': Disk,
                     used': seq<bool>)
    requires Appended(f, disk, used, first, bytes, g, disk', used')
    ensures first <= |used| && Needed(f, g.size) <= FreeFrom(used, first)
    ensures forall size ::
              && g.size == |g.data| * BLOCK < size
              && FreeFrom(used', first) < (if NeedsPointers(g) then 2 else 1)
              ==> Needed(f, size) > FreeFrom(used, first)
  {
    assert |g.data| == DataBlocks(g.size);
    forall size: nat | g.size == |g.data| * BLOCK < size && FreeFrom(used', first) < (if NeedsPointers(g) then 2 else 1)
      ensures Needed(f, size) > FreeFrom(used, first)
    {
      MoreBlocks(|g.data|, size);
    }
  }

  const EFBIG: int := 27
  const ENOSPC: int := 28
  const LIMIT: nat := INDIRECT * POINTERS * BLOCK

  /** What `escribir_archivo` makes of file `f` and returns: nothing and -EFBIG, or the file is
      `g` now, with all of the bytes exactly when there were the blocks they need and with the
      first of them otherwise.  Nobody else's blocks are touched. */
  ghost predicate Written(f: File, disk: Disk, used: seq<bool>, first: nat, buf: seq<byte>, g: File, disk': Disk,
                          used': seq<bool>, r: int) {
    && first <= |used| && Linked(f, disk) && |f.data| == DataBlocks(f.size)
    && Linked(g, disk') && |g.data| == DataBlocks(g.size) && FileOk(g, disk', used', first)
    && Unharmed(disk, used, Blocks(f), disk', used', Blocks(g))
    && f.size <= g.size <= f.size + |buf|
    && Contents(g, disk') == Contents(f, disk) + buf[..g.size - f.size]
    && (if f.size + |buf| >= LIMIT then r == -EFBIG && g == f else
          && (r == |buf| <==> Needed(f, f.size + |buf|) <= FreeFrom(used, first))
          && (if r == |buf| then g.size == f.size + |buf| else
                (r == -ENOSPC || r == -1) && Stopped(g, used', first, r)))
    && |used'| == |used| && Accounted(f, used, first, g, used', r)
  }

  /** Where a write ends for lack of blocks: no block is free, the last one of the file is full,
      and the one that -1 leaves behind had no pointer block to go to. */
  predicate Stopped(g: File, used: seq<bool>, first: nat, r: int) {
    first <= |used| && FreeFrom(used, first) == 0 && Full(g) && (r == -1 ==> NeedsPointers(g))
  }

  lemma IsStopped(g: File, used: seq<bool>, first: nat, r: int)
    requires first <= |used| && FreeFrom(used, first) == 0 && g.size == |g.data| * BLOCK
    requires r == -1 ==> NeedsPointers(g)
    ensures Stopped(g, used, first, r) && Full(g)
  {
  }

  /** The blocks that are not free any more are those that the file has got, and one that was
      obtained but not added when -1 is returned. */
  predicate Accounted(f: File, used: seq<bool>, first: nat, g: File, used': seq<bool>, r: int)
    requires first <= |used| == |used'|
  {
    FreeFrom(used, first) - FreeFrom(used', first) == Needed(f, 0) - Needed(g, 0) + if r == -1 then 1 else 0
  }

  lemma GrowthFor(f: File, disk: Disk, used: seq<bool>, g: File, disk': Disk, used': seq<bool>, first: nat, r: int)
    requires first <= |used| == |used'| && Accounted(f, used, first, g, used', r)
    requires Linked(f, disk) && |f.data| == DataBlocks(f.size) && Linked(g, disk') && |g.data| == DataBlocks(g.size)
    ensures FreeFrom(used, first) - FreeFrom(used', first) == BlocksFor(g.size) - BlocksFor(f.size) + if r == -1 then 1
            else 0
  {
    BlocksForIs(f, disk);
    BlocksForIs(g, disk');
  }

  // ---- how far a write gets ----

  /** The most bytes that `total` blocks hold as a file, the pointer blocks being among them. */
  function Room(total: nat): nat {
    (total - (total + POINTERS) / (POINTERS + 1)) * BLOCK
  }

  /** The size that a file of `size` bytes gets to when `n` are appended and `free` blocks are
      left. */
  function Grown(size: nat, n: nat, free: nat): (g: nat)
    ensures size <= g <= size + n
  {
    AtLeastTwo(size);
    RoomFits(BlocksFor(size) + free, size);
    if size + n <= Room(BlocksFor(size) + free) then size + n else Room(BlocksFor(size) + free)
  }

  /** What is returned then: the count, or -1 when one of the blocks could only be the first of
      a new pointer block, for which there is none. */
  function Answer(size: nat, n: nat, free: nat): int {
    if size + n <= Room(BlocksFor(size) + free) then n
    else if (BlocksFor(size) + free) % (POINTERS + 1) == 1 then -1
    else -ENOSPC
  }

  lemma RoomFits(total: nat, size: nat)
    requires total >= 2
    ensures BlocksFor(size) <= total <==> size <= Room(total)
  {
  }

  /** `n` full data blocks and their pointer blocks, and a block more exactly when it cannot be
      added, are all of the blocks. */
  lemma RoomFull(total: nat, n: nat, left: nat)
    requires n > 0 && left <= 1 && total == n + PointerBlocks(n) + left && (left == 1 ==> n % POINTERS == 0)
    ensures Room(total) == n * BLOCK && (left == 1 <==> total % (POINTERS + 1) == 1)
  {
    var m := PointersOf(n);
    hide PointerBlocks;
    if left == 0 {
      Quotient(total, m - 1);
    } else {
      Quotient(total, m);
    }
  }

  lemma PointersOf(n: nat) returns (m: nat)
    requires n > 0
    ensures m == PointerBlocks(n) > 0 && POINTERS * (m - 1) < n <= POINTERS * m
    ensures n % POINTERS == 0 ==> n == POINTERS * m
  {
    m := PointerBlocks(n);
  }

  lemma Quotient(total: nat, q: nat)
    requires (POINTERS + 1) * q < total <= (POINTERS + 1) * (q + 1)
    ensures (total + POINTERS) / (POINTERS + 1) == q + 1
    ensures total % (POINTERS + 1) == 1 <==> total == (POINTERS + 1) * q + 1
  {
  }

  /** Size and result of an append follow from the size, the count and the free blocks. */
  lemma WrittenExactly(f: File, disk: Disk, used: seq<bool>, first: nat, buf: seq<byte>, g: File, disk': Disk,
                       used': seq<bool>, r: int)
    requires Written(f, disk, used, first, buf, g, disk', used', r) && f.size + |buf| < LIMIT
    ensures first <= |used|
    ensures r == Answer(f.size, |buf|, FreeFrom(used, first)) && g.size == Grown(f.size, |buf|, FreeFrom(used, first))
  {
    hide *;
    WrittenFacts(f, disk, used, first, buf, g, disk', used', r);
    GrowthFor(f, disk, used, g, disk', used', first, r);
    NeededIs(f, disk, f.size + |buf|);
    if r != |buf| {
      StoppedIs(g, disk', used', first, r);
    }
    Exactly(f.size, |buf|, FreeFrom(used, first), FreeFrom(used', first), g.size, |g.data|, r);
  }

  lemma NeededIs(f: File, disk: Disk, size: nat)
    requires Linked(f, disk) && |f.data| == DataBlocks(f.size)
    ensures Needed(f, size) == BlocksFor(size) - BlocksFor(f.size)
  {
    BlocksForIs(f, disk);
  }

  lemma StoppedIs(g: File, disk: Disk, used: seq<bool>, first: nat, r: int)
    requires Stopped(g, used, first, r) && Linked(g, disk) && |g.data| == DataBlocks(g.size)
    ensures first <= |used| && FreeFrom(used, first) == 0 && g.size == |g.data| * BLOCK && |g.data| > 0
    ensures BlocksFor(g.size) == |g.data| + PointerBlocks(|g.data|) && (r == -1 ==> |g.data| % POINTERS == 0)
  {
    BlocksForIs(g, disk);
  }

  lemma Exactly(size: nat, n: nat, free: nat, free': nat, size': nat, data: nat, r: int)
    requires r == n <==> BlocksFor(size + n) - BlocksFor(size) <= free
    requires free - free' == BlocksFor(size') - BlocksFor(size) + if r == -1 then 1 else 0
    requires if r == n then size' == size + n else
             && (r == -ENOSPC || r == -1) && free' == 0 && size' == data * BLOCK && data > 0
             && BlocksFor(size') == data + PointerBlocks(data) && (r == -1 ==> data % POINTERS == 0)
    ensures r == Answer(size, n, free) && size' == Grown(size, n, free)
  {
    var total := BlocksFor(size) + free;
    AtLeastTwo(size);
    RoomFits(total, size + n);
    hide BlocksFor, PointerBlocks, Room;
    if r != n {
      RoomFull(total, data, if r == -1 then 1 else 0);
    }
  }

  lemma AtLeastTwo(size: nat)
    ensures BlocksFor(size) >= 2
  {
  }

  /** A write is refused, or stops where the file's index ends. */
  predicate Outside(f: File, n: nat, free: nat) {
    f.size + n < LIMIT && f.size + n > HALF && Needed(f, HALF + 1) <= free
  }

  lemma OutsideIs(f: File, n: nat, free: nat)
    ensures Outside(f, n, free) <==> f.size + n < LIMIT && f.size + n > HALF && Needed(f, HALF + 1) <= free
    ensures LIMIT == 4194304000 && HALF == 0x8000_0000 && BLOCK == 4096 && ENOSPC > 0
  {
  }

  /** The least input: one byte more for a file of 2^31 bytes is lost as soon as two blocks
      are free. */
  lemma OneByteMore(f: File, disk: Disk, used: seq<bool>, first: nat, free: nat)
    requires FileOk(f, disk, used, first) && f.size == HALF
    ensures Outside(f, 1, free) <==> free >= 2
  {
  }

  lemma TooMuch(f: File, disk: Disk, used: seq<bool>, first: nat, buf: seq<byte>)
    requires FileOk(f, disk, used, first) && first <= |used| && f.size + |buf| >= LIMIT
    ensures Written(f, disk, used, first, buf, f, disk, used, -EFBIG)
  {
    NothingAppended(f, disk, used, first);
    assert buf[..0] == [];
  }

  lemma AllWritten(f: File, disk: Disk, used: seq<bool>, first: nat, buf: seq<byte>, g: File, disk': Disk,
                   used': seq<bool>)
    requires Appended(f, disk, used, first, buf[..|buf|], g, disk', used') && f.size + |buf| < LIMIT
    ensures Written(f, disk, used, first, buf, g, disk', used', |buf|) && f.size + |buf| <= HALF
  {
    hide *;
    WholeIs(buf);
    AppendedFacts(f, disk, used, first, buf, g, disk', used');
    AppendedFits(f, disk, used, first, buf, g, disk', used');
    GoodFacts(g, disk', used', first);
    WholeFrom(f, g, buf);
    PartAccounted(f, disk, used, first, buf, g, disk', used', used', |buf|);
    IsWritten(f, disk, used, first, buf, g, disk', used', |buf|);
  }

  lemma PartAccounted(f: File, disk: Disk, used: seq<bool>, first: nat, bytes: seq<byte>, g: File, d: Disk,
                      u: seq<bool>, v: seq<bool>, r: int)
    requires Appended(f, disk, used, first, bytes, g, d, u) && |u| == |v| && first <= |u|
    requires FreeFrom(u, first) - FreeFrom(v, first) == if r == -1 then 1 else 0
    ensures |v| == |used| && first <= |used| && Accounted(f, used, first, g, v, r)
  {
    hide Contents, Linked, FileOk, Needed, FreeFrom, Unharmed, Backs;
  }

  lemma WholeIs(buf: seq<byte>)
    ensures buf[..|buf|] == buf
  {
  }

  lemma WholeFrom(f: File, g: File, buf: seq<byte>)
    requires g.size == f.size + |buf|
    ensures g.size - f.size <= |buf| && buf[..g.size - f.size] == buf
  {
  }

  lemma IsWritten(f: File, disk: Disk, used: seq<bool>, first: nat, buf: seq<byte>, g: File, disk': Disk,
                  used': seq<bool>, r: int)
    requires first <= |used| && Linked(f, disk) && |f.data| == DataBlocks(f.size)
    requires Linked(g, disk') && |g.data| == DataBlocks(g.size) && FileOk(g, disk', used', first)
    requires Unharmed(disk, used, Blocks(f), disk', used', Blocks(g)) && f.size <= g.size <= f.size + |buf| < LIMIT
    requires Contents(g, disk') == Contents(f, disk) + buf[..g.size - f.size]
    requires r == |buf| <==> Needed(f, f.size + |buf|) <= FreeFrom(used, first)
    requires if r == |buf| then g.size == f.size + |buf| else (r == -ENOSPC || r == -1) && Stopped(g, used', first, r)
    requires |used'| == |used| && Accounted(f, used, first, g, used', r)
    ensures Written(f, disk, used, first, buf, g, disk', used', r)
  {
  }

  lemma WrittenFacts(f: File, disk: Disk, used: seq<bool>, first: nat, buf: seq<byte>, g: File, disk': Disk,
                     used': seq<bool>, r: int)
    requires Written(f, disk, used, first, buf, g, disk', used', r)
    ensures first <= |used| && Linked(f, disk) && |f.data| == DataBlocks(f.size)
    ensures Linked(g, disk') && |g.data| == DataBlocks(g.size) && FileOk(g, disk', used', first)
    ensures Unharmed(disk, used, Blocks(f), disk', used', Blocks(g))
    ensures f.size <= g.size <= f.size + |buf| && Contents(g, disk') == Contents(f, disk) + buf[..g.size - f.size]
    ensures f.size + |buf| >= LIMIT ==> r == -EFBIG && g.size == f.size
    ensures f.size + |buf| < LIMIT ==>
              && (r == |buf| <==> Needed(f, f.size + |buf|) <= FreeFrom(used, first))
              && if r == |buf| then g.size == f.size + |buf| else
                   (r == -ENOSPC || r == -1) && Stopped(g, used', first, r)
    ensures |used'| == |used| && Accounted(f, used, first, g, used', r)
  {
    hide Accounted, FreeFrom, Needed, Contents, Linked, FileOk, Unharmed, DataBlocks, Stopped;
  }

  /** A round for which there are no blocks ends the write. */
  lemma PartWritten(f: File, disk: Disk, used: seq<bool>, first: nat, buf: seq<byte>, done: nat, g: File, d: Disk,
                    u: seq<bool>, v: seq<bool>, r: int)
    requires done < |buf| && Appended(f, disk, used, first, buf[..done], g, d, u) && f.size + |buf| < LIMIT
    requires Full(g) && FreeFrom(u, first) < (if NeedsPointers(g) then 2 else 1) && (r == -ENOSPC || r == -1)
    requires Stopped(g, v, first, r)
    requires FileOk(g, d, v, first) && Unharmed(d, u, Blocks(g), d, v, Blocks(g))
    requires |v| == |u| && FreeFrom(u, first) - FreeFrom(v, first) == if r == -1 then 1 else 0
    ensures Written(f, disk, used, first, buf, g, d, v, r) && !Outside(f, |buf|, FreeFrom(used, first))
  {
    hide *;
    var bytes := buf[..done];
    AppendedFacts(f, disk, used, first, bytes, g, d, u);
    PartFrom(f, g, buf, done);
    var size, top := f.size + |buf|, HALF + 1;
    NoRoom(f, disk, used, first, bytes, g, d, u, size);
    if g.size < top {
      NoRoom(f, disk, used, first, bytes, g, d, u, top);
    }
    SameNeeds(f, buf, size, top);
    IsPart(f, disk, used, first, buf, bytes, g, d, u, v, r);
  }

  lemma IsPart(f: File, disk: Disk, used: seq<bool>, first: nat, buf: seq<byte>, bytes: seq<byte>, g: File, d: Disk,
               u: seq<bool>, v: seq<bool>, r: int)
    requires Appended(f, disk, used, first, bytes, g, d, u) && f.size + |buf| < LIMIT && (r == -ENOSPC || r == -1)
    requires FileOk(g, d, v, first) && Unharmed(d, u, Blocks(g), d, v, Blocks(g))
    requires first <= |v| == |u| && FreeFrom(u, first) - FreeFrom(v, first) == if r == -1 then 1 else 0
    requires first <= |used| && f.size <= g.size < f.size + |buf| && bytes == buf[..g.size - f.size]
    requires Stopped(g, v, first, r)
    requires Needed(f, f.size + |buf|) > FreeFrom(used, first)
    requires g.size < HALF + 1 ==> Needed(f, HALF + 1) > FreeFrom(used, first)
    ensures Written(f, disk, used, first, buf, g, d, v, r) && !Outside(f, |buf|, FreeFrom(used, first))
  {
    hide *;
    AppendedFacts(f, disk, used, first, bytes, g, d, u);
    GoodFacts(g, d, v, first);
    OutsideIs(f, |buf|, FreeFrom(used, first));
    UnharmedTwice(disk, used, Blocks(f), d, u, Blocks(g), d, v, Blocks(g));
    PartAccounted(f, disk, used, first, bytes, g, d, u, v, r);
    IsWritten(f, disk, used, first, buf, g, d, v, r);
  }

  lemma SameNeeds(f: File, buf: seq<byte>, size: nat, top: nat)
    requires size == f.size + |buf| && top == HALF + 1
    ensures Needed(f, size) == Needed(f, f.size + |buf|) && Needed(f, top) == Needed(f, HALF + 1)
  {
    hide Needed;
  }

  /** The file ends with its last block. */
  predicate Full(f: File) {
    f.size == |f.data| * BLOCK
  }

  lemma FullIs(f: File)
    ensures Full(f) <==> f.size == |f.data| * BLOCK
  {
  }

  lemma PartFrom(f: File, g: File, buf: seq<byte>, done: nat)
    requires done < |buf| && g.size == f.size + |buf[..done]|
    ensures f.size <= g.size < f.size + |buf| && buf[..g.size - f.size] == buf[..done]
  {
  }

  lemma NoRoom(f: File, disk: Disk, used: seq<bool>, first: nat, bytes: seq<byte>, g: File, d: Disk, u: seq<bool>,
               size: nat)
    requires Appended(f, disk, used, first, bytes, g, d, u) && first <= |used| == |u|
    requires Full(g) && g.size < size && FreeFrom(u, first) < (if NeedsPointers(g) then 2 else 1)
    ensures Needed(f, size) > FreeFrom(used, first)
  {
    hide *;
    FullIs(g);
    AppendedFits(f, disk, used, first, bytes, g, d, u);
  }

  lemma MoreBlocks(n: nat, size: nat)
    requires n * BLOCK < size
    ensures DataBlocks(size) >= n + 1
    ensures PointerBlocks(DataBlocks(size)) >= PointerBlocks(n) + if n % POINTERS == 0 then 1 else 0
  {
    assert DataBlocks(size) >= n + 1;
    hide DataBlocks;
    PointersGrow(n, DataBlocks(size));
  }

  lemma PointersGrow(n: nat, k: nat)
    requires n < k
    ensures PointerBlocks(k) >= PointerBlocks(n + 1) == PointerBlocks(n) + if n % POINTERS == 0 then 1 else 0
  {
  }

  /** Where a round of `escribir_archivo` writes when `room` bytes of the last block are free. */
  lemma RoundNew(f: File, disk: Disk, used: seq<bool>, first: nat, tam: nat)
    requires FileOk(f, disk, used, first) && f.size % BLOCK == 0 && f.size > 0 && tam > 0
    ensures f.size == |f.data| * BLOCK <= HALF && Fits(f)
  {
  }

  /** An append that gets to 2^31 bytes and still has two blocks free had room for one byte
      more. */
  lemma HalfFits(f: File, disk: Disk, used: seq<bool>, first: nat, bytes: seq<byte>, g: File, disk': Disk,
                 used': seq<bool>)
    requires Appended(f, disk, used, first, bytes, g, disk', used') && g.size == HALF
    ensures first <= |used| == |used'|
    ensures FreeFrom(used', first) >= 2 ==> Needed(f, HALF + 1) <= FreeFrom(used, first)
  {
    assert |g.data| == DataBlocks(g.size);
  }

  /** A file of 2^31 bytes has 512 full pointer blocks, and its mark right after them. */
  lemma HalfIs(f: File, disk: Disk, used: seq<bool>, first: nat)
    requires FileOk(f, disk, used, first) && f.size == HALF
    ensures |f.indirect| == INDIRECT && f.indirect[512] == 0
  {
  }

  lemma HalfNeeds(f: File)
    ensures f.size == |f.data| * BLOCK && f.size == HALF ==> NeedsPointers(f)
    ensures HALF > 0
  {
  }

  lemma UnusedInside(used: seq<bool>, disk: Disk, b: nat)
    requires Backs(used, disk) && b < |used| && !used[b]
    ensures b < |disk|
  {
  }

  lemma RoundOld(f: File, disk: Disk, used: seq<bool>, first: nat)
    requires FileOk(f, disk, used, first) && (f.size % BLOCK != 0 || f.size == 0)
    ensures f.size / BLOCK < |f.data| && f.size < HALF
  {
  }

  // ---- what `leer_archivo` finds ----

  /** `count` bytes from place `off` of block `b`, on into the next block of the disk when they
      do not end in it. */
  function FromBlock(disk: Disk, b: nat, off: nat, count: nat): (s: seq<byte>)
    requires DiskOk(disk) && b < |disk| && off < BLOCK && count <= BLOCK && (off + count > BLOCK ==> b + 1 < |disk|)
    ensures |s| == count
  {
    if off + count <= BLOCK then disk[b][off..off + count] else disk[b][off..] + disk[b + 1][..off + count - BLOCK]
  }

  /** How many of the `size` bytes asked for at `at` the file has. */
  function Available(f: File, at: nat, size: nat): (n: nat)
    ensures n <= size && (n > 0 ==> at + n <= f.size)
  {
    if f.size <= at then 0 else if f.size <= at + size then f.size - at else size
  }

  /** The first bytes copied, a block's length from place `at` or all `n` if that is less, end
      inside the disk. */
  predicate Mapped(f: File, disk: Disk, at: nat, n: nat) {
    at % BLOCK + n <= BLOCK || at % BLOCK == 0 || (at / BLOCK < |f.data| && f.data[at / BLOCK] + 1 < |disk|)
  }

  /** What `leer_archivo` returns for `n` bytes from place `at`: as much as a block's length
      from there on the disk, and then the bytes from the file's next block on. */
  ghost function BytesRead(f: File, disk: Disk, at: nat, n: nat): (s: seq<byte>)
    requires Linked(f, disk) && |f.data| == DataBlocks(f.size) && (n > 0 ==> at + n <= f.size) && Mapped(f, disk, at, n)
    ensures |s| == n
  {
    if n == 0 then [] else
      var k, off := at / BLOCK, at % BLOCK;
      BlockOf(f.size, k, off);
      if n <= BLOCK then FromBlock(disk, f.data[k], off, n)
      else
        FromBlock(disk, f.data[k], off, BLOCK) + Contents(f, disk)[(k + 1) * BLOCK..(k + 1) * BLOCK + n - BLOCK]
  }

  lemma BytesReadIs(f: File, disk: Disk, at: nat, k: nat, off: nat, n: nat)
    requires Linked(f, disk) && |f.data| == DataBlocks(f.size) && Mapped(f, disk, at, n)
    requires at == k * BLOCK + off && off < BLOCK && n > 0 && at + n <= f.size
    ensures DiskOk(disk)
    ensures var c := if n <= BLOCK then n else BLOCK;
            && k < |f.data| && f.data[k] < |disk|
            && (off + c > BLOCK ==> f.data[k] + 1 < |disk| && k + 1 < |f.data| && f.data[k + 1] < |disk|)
            && BytesRead(f, disk, at, n) ==
                 FromBlock(disk, f.data[k], off, c) +
                 if n <= BLOCK then [] else Contents(f, disk)[(k + 1) * BLOCK..(k + 1) * BLOCK + n - BLOCK]
  {
    BlockOf(f.size, k, off);
    if off + n > BLOCK {
      BlockOf(f.size, k + 1, 0);
    }
    DataInside(f, disk);
    InBlock(k, off);
    hide *;
    BlockIs();
    BytesReadAt(f, disk, at, k, off, n);
  }

  lemma BytesReadAt(f: File, disk: Disk, at: nat, k: nat, off: nat, n: nat)
    requires Linked(f, disk) && |f.data| == DataBlocks(f.size) && n > 0 && at + n <= f.size && Mapped(f, disk, at, n)
    requires at / BLOCK == k && at % BLOCK == off && k < |f.data| && f.data[k] < |disk| && DiskOk(disk)
    requires (k + 1) * BLOCK + n - BLOCK <= f.size
    ensures var c := if n <= BLOCK then n else BLOCK;
            && (off + c > BLOCK ==> f.data[k] + 1 < |disk|)
            && BytesRead(f, disk, at, n) ==
                 FromBlock(disk, f.data[k], off, c) +
                 if n <= BLOCK then [] else Contents(f, disk)[(k + 1) * BLOCK..(k + 1) * BLOCK + n - BLOCK]
  {
    hide Linked, Contents, FromBlock, DataBlocks, DiskOk;
  }

  lemma DataInside(f: File, disk: Disk)
    requires Linked(f, disk)
    ensures DiskOk(disk) && forall i :: 0 <= i < |f.data| ==> f.data[i] < |disk|
  {
  }

  lemma InBlock(k: nat, off: nat)
    requires off < BLOCK
    ensures (k * BLOCK + off) / BLOCK == k && (k * BLOCK + off) % BLOCK == off
  {
  }

  /** From a block boundary and inside a block these are the file's bytes. */
  lemma ReadInPlace(f: File, disk: Disk, at: nat, n: nat)
    requires Linked(f, disk) && |f.data| == DataBlocks(f.size) && n > 0 && at + n <= f.size
    requires at % BLOCK == 0 || at % BLOCK + n <= BLOCK
    ensures Mapped(f, disk, at, n) && BytesRead(f, disk, at, n) == Contents(f, disk)[at..at + n]
  {
    var k, off := Parts(at);
    MappedInPlace(f, disk, at, n);
    hide *;
    BlockIs();
    BytesReadIs(f, disk, at, k, off, n);
    if n <= BLOCK {
      InPlaceOne(f, disk, k, off, n, at, at + n);
    } else {
      InPlaceMore(f, disk, k, n, at, at + n);
    }
  }

  lemma Parts(at: nat) returns (k: nat, off: nat)
    ensures at == k * BLOCK + off && off == at % BLOCK < BLOCK
  {
    k, off := at / BLOCK, at % BLOCK;
  }

  lemma MappedInPlace(f: File, disk: Disk, at: nat, n: nat)
    requires at % BLOCK == 0 || at % BLOCK + n <= BLOCK
    ensures Mapped(f, disk, at, n)
  {
  }

  lemma InPlaceOne(f: File, disk: Disk, k: nat, off: nat, n: nat, at: nat, end: nat)
    requires Linked(f, disk) && DiskOk(disk) && |f.data| == DataBlocks(f.size) && k < |f.data|
    requires off + n <= BLOCK && off < BLOCK && at == k * BLOCK + off && end == at + n <= f.size
    ensures f.data[k] < |disk| && FromBlock(disk, f.data[k], off, n) + [] == Contents(f, disk)[at..end]
  {
    ReadAt(f, disk, k, off, n, at, end);
    hide Linked, DataBlocks, Contents;
  }

  lemma InPlaceMore(f: File, disk: Disk, k: nat, n: nat, at: nat, end: nat)
    requires Linked(f, disk) && DiskOk(disk) && |f.data| == DataBlocks(f.size) && k < |f.data|
    requires n > BLOCK && at == k * BLOCK && end == at + n <= f.size
    ensures f.data[k] < |disk|
    ensures var all, next := Contents(f, disk), (k + 1) * BLOCK;
            FromBlock(disk, f.data[k], 0, BLOCK) + all[next..next + n - BLOCK] == all[at..end]
  {
    ReadAt(f, disk, k, 0, BLOCK, at, at + BLOCK);
    hide Linked, DataBlocks, Contents;
    TwoSlices(Contents(f, disk), at, at + BLOCK, end);
  }

  lemma TwoSlices(m: seq<byte>, a: nat, b: nat, c: nat)
    requires a <= b <= c <= |m|
    ensures m[a..c] == m[a..b] + m[b..c]
  {
  }

  /** The disk's block after the file's k-th one begins like the file's next one, and the bytes
      of the file after that are the same from its next block on and `off` bytes further. */
  ghost predicate Continues(f: File, disk: Disk, k: nat, off: nat, n: nat)
    requires Linked(f, disk) && |f.data| == DataBlocks(f.size) && k * BLOCK + off + n <= f.size
    requires off < BLOCK < off + n && k + 1 < |f.data| && f.data[k] + 1 < |disk|
  {
    if n <= BLOCK then disk[f.data[k] + 1][..n + off - BLOCK] == disk[f.data[k + 1]][..n + off - BLOCK] else
      var all, at, next := Contents(f, disk), k * BLOCK + off, (k + 1) * BLOCK;
      && disk[f.data[k] + 1][..off] == disk[f.data[k + 1]][..off]
      && all[next..next + n - BLOCK] == all[at + BLOCK..at + n]
  }

  /** Across a block boundary they are the file's bytes exactly in that case. */
  lemma ReadAcrossIff(f: File, disk: Disk, at: nat, k: nat, off: nat, n: nat)
    requires Linked(f, disk) && |f.data| == DataBlocks(f.size) && Mapped(f, disk, at, n)
    requires at == k * BLOCK + off && 0 < off < BLOCK < off + n && at + n <= f.size
    ensures k + 1 < |f.data| && f.data[k] + 1 < |disk|
    ensures BytesRead(f, disk, at, n) == Contents(f, disk)[at..at + n] <==> Continues(f, disk, k, off, n)
  {
    BytesReadIs(f, disk, at, k, off, n);
    hide *;
    BlockIs();
    AcrossWhole(f, disk, k, off, n, at, at + n, BytesRead(f, disk, at, n));
  }

  lemma AcrossWhole(f: File, disk: Disk, k: nat, off: nat, n: nat, at: nat, end: nat, s: seq<byte>)
    requires Linked(f, disk) && DiskOk(disk) && |f.data| == DataBlocks(f.size) && k + 1 < |f.data|
    requires f.data[k] + 1 < |disk| && 0 < off < BLOCK < off + n && at == k * BLOCK + off && end == at + n <= f.size
    requires var c := if n <= BLOCK then n else BLOCK;
             s == FromBlock(disk, f.data[k], off, c) +
                  if n <= BLOCK then [] else Contents(f, disk)[(k + 1) * BLOCK..(k + 1) * BLOCK + n - BLOCK]
    ensures s == Contents(f, disk)[at..end] <==> Continues(f, disk, k, off, n)
  {
    hide Linked, Contents, DataBlocks, Continues, FromBlock, DiskOk;
    if n <= BLOCK {
      AcrossOne(f, disk, k, off, n, at, (k + 1) * BLOCK, end, n + off - BLOCK);
    } else {
      AcrossMore(f, disk, k, off, n, at, (k + 1) * BLOCK, at + BLOCK, end);
    }
  }

  lemma AcrossOne(f: File, disk: Disk, k: nat, off: nat, n: nat, at: nat, next: nat, end: nat, more: nat)
    requires Linked(f, disk) && DiskOk(disk) && |f.data| == DataBlocks(f.size) && k + 1 < |f.data|
    requires f.data[k] + 1 < |disk| && off < BLOCK < off + n && n <= BLOCK && end <= f.size
    requires at == k * BLOCK + off && next == at + BLOCK - off && end == at + n && more == n + off - BLOCK
    ensures FromBlock(disk, f.data[k], off, n) + [] == Contents(f, disk)[at..end] <==> Continues(f, disk, k, off, n)
  {
    hide *;
    BlockIs();
    AcrossBlocks(f, disk, k, off, n, more, at, next, end);
    AcrossIff(Contents(f, disk), at, next, end, end, disk[f.data[k] + 1][..more], []);
    ContinuesOne(f, disk, k, off, n, more);
  }

  lemma ContinuesOne(f: File, disk: Disk, k: nat, off: nat, n: nat, more: nat)
    requires Linked(f, disk) && |f.data| == DataBlocks(f.size) && k * BLOCK + off + n <= f.size
    requires off < BLOCK < off + n && n <= BLOCK && more == n + off - BLOCK
    requires k + 1 < |f.data| && f.data[k] + 1 < |disk|
    ensures f.data[k + 1] < |disk| && |disk[f.data[k] + 1]| == |disk[f.data[k + 1]]| == BLOCK
    ensures Continues(f, disk, k, off, n) <==> disk[f.data[k] + 1][..more] == disk[f.data[k + 1]][..more]
  {
    hide Indexed, DataBlocks;
  }

  lemma AcrossMore(f: File, disk: Disk, k: nat, off: nat, n: nat, at: nat, next: nat, upto: nat, end: nat)
    requires Linked(f, disk) && DiskOk(disk) && |f.data| == DataBlocks(f.size) && k + 1 < |f.data|
    requires f.data[k] + 1 < |disk| && 0 < off < BLOCK < n && end <= f.size
    requires at == k * BLOCK + off && next == at + BLOCK - off && upto == at + BLOCK && end == at + n
    ensures var all := Contents(f, disk);
            FromBlock(disk, f.data[k], off, BLOCK) + all[next..next + n - BLOCK] == all[at..end] <==>
              Continues(f, disk, k, off, n)
  {
    hide *;
    BlockIs();
    var all := Contents(f, disk);
    AcrossBlocks(f, disk, k, off, BLOCK, off, at, next, upto);
    AcrossIff(all, at, next, upto, end, disk[f.data[k] + 1][..off], all[next..next + n - BLOCK]);
    ContinuesMore(f, disk, k, off, n, at, next, upto, end);
  }

  lemma ContinuesMore(f: File, disk: Disk, k: nat, off: nat, n: nat, at: nat, next: nat, upto: nat, end: nat)
    requires Linked(f, disk) && |f.data| == DataBlocks(f.size) && end <= f.size
    requires 0 < off < BLOCK < n && k + 1 < |f.data| && f.data[k] + 1 < |disk|
    requires at == k * BLOCK + off && next == at + BLOCK - off && upto == at + BLOCK && end == at + n
    ensures f.data[k + 1] < |disk| && |disk[f.data[k] + 1]| == |disk[f.data[k + 1]]| == BLOCK
    ensures var all := Contents(f, disk);
            Continues(f, disk, k, off, n) <==>
              && disk[f.data[k] + 1][..off] == disk[f.data[k + 1]][..off]
              && all[next..next + n - BLOCK] == all[upto..end]
  {
    hide Indexed, DataBlocks, Contents;
  }

  lemma BlockIs()
    ensures BLOCK == 4096
  {
  }

  /** The bytes of the file from `at` to `upto`, and those copied, on both sides of `next`,
      where the file's k-th block ends. */
  lemma AcrossBlocks(f: File, disk: Disk, k: nat, off: nat, c: nat, more: nat, at: nat, next: nat, upto: nat)
    requires Linked(f, disk) && DiskOk(disk) && |f.data| == DataBlocks(f.size) && k + 1 < |f.data|
    requires f.data[k] + 1 < |disk| && off < BLOCK && c <= BLOCK < off + c && upto <= f.size
    requires at == k * BLOCK + off && next == at + BLOCK - off && upto == at + c && more == upto - next
    ensures f.data[k + 1] < |disk| && |disk[f.data[k]]| == |disk[f.data[k] + 1]| == |disk[f.data[k + 1]]| == BLOCK
    ensures var all := Contents(f, disk);
            && FromBlock(disk, f.data[k], off, c) == all[at..next] + disk[f.data[k] + 1][..more]
            && all[next..upto] == disk[f.data[k + 1]][..more]
  {
    hide *;
    BlockIs();
    ReadAt(f, disk, k, off, BLOCK - off, at, next);
    ReadAt(f, disk, k + 1, 0, more, next, upto);
    FromTwo(disk, f.data[k], off, c, more);
  }

  lemma ReadAt(f: File, disk: Disk, i: nat, off: nat, n: nat, at: nat, end: nat)
    requires Linked(f, disk) && |f.data| == DataBlocks(f.size) && i < |f.data| && off + n <= BLOCK
    requires at == i * BLOCK + off && end == at + n <= f.size
    ensures f.data[i] < |disk| && |disk[f.data[i]]| == BLOCK
    ensures Contents(f, disk)[at..end] == disk[f.data[i]][off..off + n]
  {
    hide Linked, Contents, DataBlocks;
    ReadChunk(f, disk, i, off, n);
  }

  lemma FromTwo(disk: Disk, b: nat, off: nat, c: nat, more: nat)
    requires DiskOk(disk) && b + 1 < |disk| && off < BLOCK && c <= BLOCK && more == off + c - BLOCK && more > 0
    ensures |disk[b]| == |disk[b + 1]| == BLOCK
    ensures FromBlock(disk, b, off, c) == disk[b][off..off + (BLOCK - off)] + disk[b + 1][..more]
  {
  }

  lemma AcrossIff(all: seq<byte>, at: nat, next: nat, upto: nat, end: nat, x: seq<byte>, rest: seq<byte>)
    requires at <= next <= upto <= end <= |all| && |x| == upto - next && |rest| == end - upto
    ensures all[at..next] + x + rest == all[at..end] <==> x == all[next..upto] && rest == all[upto..end]
  {
    TwoSlices(all, at, upto, end);
    TwoSlices(all, at, next, upto);
    SameParts(all[at..next] + x, rest, all[at..upto], all[upto..end]);
    SameParts(all[at..next], x, all[at..next], all[next..upto]);
  }

  lemma SameParts(a: seq<byte>, x: seq<byte>, b: seq<byte>, y: seq<byte>)
    requires |a| == |b|
    ensures a + x == b + y <==> a == b && x == y
  {
    if a + x == b + y {
      assert (a + x)[..|a|] == a && (b + y)[..|b|] == b;
      assert (a + x)[|a|..] == x && (b + y)[|b|..] == y;
    }
  }

  /** The block looked up by pointer block and position in it is the file's block for that
      place, and has the bytes of that place. */
  lemma FoundAt(f: File, disk: Disk, used: seq<bool>, first: nat, i: nat, j: nat, off: nat, n: nat)
    requires FileOk(f, disk, used, first) && j < POINTERS && off < BLOCK && (i * POINTERS + j) * BLOCK + off < f.size
    ensures Linked(f, disk) && |f.data| == DataBlocks(f.size) && i * POINTERS + j < |f.data|
    ensures i < |f.indirect| && f.indirect[i] < |disk| && |disk[f.indirect[i]]| == BLOCK
    ensures var b, at := Pointer(disk[f.indirect[i]], j), (i * POINTERS + j) * BLOCK + off;
            && b == f.data[i * POINTERS + j] < |disk| && |disk[b]| == BLOCK
            && (off + n <= BLOCK && at + n <= f.size ==> Contents(f, disk)[at..at + n] == disk[b][off..off + n])
  {
    var k := i * POINTERS + j;
    BlockOf(f.size, k, off);
    assert k / POINTERS == i && k % POINTERS == j;
    assert Indexed(f, disk, k);
    hide Contents, DataBlocks;
    if off + n <= BLOCK && k * BLOCK + off + n <= f.size {
      ReadChunk(f, disk, k, off, n);
    }
  }

  /** Where a file is on the disk, byte by byte: 1024 words to a pointer block, each the number
      of a block with the next 4096 bytes. */
  lemma OnDisk(f: File, disk: Disk, used: seq<bool>, first: nat, k: nat, n: nat)
    requires FileOk(f, disk, used, first) && k < |f.data| && n <= 4096 && k * 4096 + n <= f.size
    ensures Linked(f, disk) && |f.data| == DataBlocks(f.size) && k / 1024 < |f.indirect|
    ensures f.indirect[k / 1024] < |disk| && f.data[k] < |disk| && |disk[f.data[k]]| == 4096
    ensures WordAt(disk[f.indirect[k / 1024]], k % 1024 * 4, f.data[k])
    ensures Contents(f, disk)[k * 4096..k * 4096 + n] == disk[f.data[k]][..n]
  {
    assert Indexed(f, disk, k);
    ReadChunk(f, disk, k, 0, n);
    var block := disk[f.indirect[k / 1024]];
    hide Contents, DataBlocks;
    WordIs(block, k % 1024 * 4, f.data[k]);
    assert block[4 * (k % 1024)..4 * (k % 1024) + 4] == block[k % 1024 * 4..k % 1024 * 4 + 4];
  }

  lemma BlockOf(size: nat, k: nat, off: nat)
    requires k * BLOCK + off < size
    ensures k < DataBlocks(size)
  {
  }

  lemma SizeBound(f: File, disk: Disk, used: seq<bool>, first: nat)
    requires FileOk(f, disk, used, first)
    ensures f.size <= HALF <= (INDIRECT - 1) * POINTERS * BLOCK && Linked(f, disk) && |f.data| == DataBlocks(f.size)
  {
  }
}
