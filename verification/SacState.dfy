/** A SAC file system as a value: its table, its files, its blocks and its bitmap. */
module SacState {
  import opened Bytes
  import opened SacTree
  import opened SacFiles

  /** Every live file is in order, and no two of them share a block. */
  ghost predicate SystemOk(t: seq<Entry>, fs: seq<File>, disk: Disk, used: seq<bool>, first: nat) {
    && |fs| == |t| && Backs(used, disk) && 0 < first <= |disk| && DiskOk(disk)
    && (forall i :: 0 <= i < |t| ==> t[i].state <= 2 && |fs[i].indirect| == INDIRECT)
    && (forall i :: 0 <= i < |t| && t[i].state == 1 ==> FileOk(fs[i], disk, used, first))
    && (forall i, j :: 0 <= i < j < |t| && t[i].state == 1 && t[j].state == 1 ==> Apart(fs[i], fs[j]))
  }

  ghost predicate Apart(f: File, g: File) {
    forall b :: b in Blocks(f) ==> b !in Blocks(g)
  }

  ghost predicate Readable(t: seq<Entry>, fs: seq<File>, disk: Disk, i: nat) {
    i < |t| && i < |fs| && t[i].state == 1 && Linked(fs[i], disk) && |fs[i].data| == DataBlocks(fs[i].size)
  }

  /** What the file system stores: the bytes of each live file, by its index in the table. */
  ghost function Stored(t: seq<Entry>, fs: seq<File>, disk: Disk): map<nat, seq<byte>> {
    map i: nat | i < |t| && Readable(t, fs, disk, i) :: Contents(fs[i], disk)
  }

  lemma StoredAll(t: seq<Entry>, fs: seq<File>, disk: Disk, used: seq<bool>, first: nat)
    requires SystemOk(t, fs, disk, used, first)
    ensures forall i: nat :: i in Stored(t, fs, disk) <==> i < |t| && t[i].state == 1
    ensures |fs| == |t| && forall i: nat :: i < |t| && t[i].state == 1 ==> FileOk(fs[i], disk, used, first)
    ensures forall i: nat :: i < |t| && t[i].state == 1 ==>
            Readable(t, fs, disk, i) && Stored(t, fs, disk)[i] == Contents(fs[i], disk)
  {
  }

  lemma StoredIs(t: seq<Entry>, fs: seq<File>, disk: Disk, used: seq<bool>, first: nat, m: map<nat, seq<byte>>)
    requires SystemOk(t, fs, disk, used, first)
    requires forall i: nat :: i in m <==> i < |t| && t[i].state == 1
    requires forall i: nat :: i in m ==> Readable(t, fs, disk, i) && m[i] == Contents(fs[i], disk)
    ensures m == Stored(t, fs, disk)
  {
    StoredAll(t, fs, disk, used, first);
  }

  /** The blocks of a node that holds a file. */
  ghost function Own(t: seq<Entry>, fs: seq<File>, i: nat): seq<nat>
    requires i < |t| == |fs|
  {
    if t[i].state == 1 then Blocks(fs[i]) else []
  }

  lemma OwnIs(t: seq<Entry>, fs: seq<File>, i: nat)
    requires i < |t| == |fs| && t[i].state == 1
    ensures Own(t, fs, i) == Blocks(fs[i])
  {
  }

  lemma SystemFacts(t: seq<Entry>, fs: seq<File>, disk: Disk, used: seq<bool>, first: nat, i: nat)
    requires SystemOk(t, fs, disk, used, first) && i < |t|
    ensures |fs| == |t| && |fs[i].indirect| == INDIRECT && DiskOk(disk) && Backs(used, disk) && |disk| <= WORD
            && 0 < first <= |disk| <= |used|
    ensures t[i].state <= 2
    ensures t[i].state != 1 ==> Own(t, fs, i) == [] && i !in Stored(t, fs, disk)
  {
  }

  /** A request that harms nobody leaves a file that is not its own as it was. */
  lemma OtherKept(t: seq<Entry>, fs: seq<File>, disk: Disk, used: seq<bool>, first: nat, i: nat, disk': Disk,
                  used': seq<bool>, own': seq<nat>, j: nat)
    requires SystemOk(t, fs, disk, used, first) && i < |t| && j < |t| && j != i && t[j].state == 1
    requires Unharmed(disk, used, Own(t, fs, i), disk', used', own') && DiskOk(disk')
    ensures Readable(t, fs, disk, j) && Readable(t, fs, disk', j)
    ensures FileOk(fs[j], disk', used', first) && Contents(fs[j], disk') == Contents(fs[j], disk)
    ensures forall b :: b in Blocks(fs[j]) ==> b !in own'
  {
    assert Apart(fs[if i < j then i else j], fs[if i < j then j else i]) || t[i].state != 1;
    BlocksInside(fs[j], disk);
    FileFrame(fs[j], disk, used, first, disk', used');
  }

  /** Node `i` becomes, or stays, a file with blocks of its own: everybody else's bytes stay. */
  lemma SystemPut(t: seq<Entry>, fs: seq<File>, disk: Disk, used: seq<bool>, first: nat, i: nat, e: Entry, g: File,
                  disk': Disk, used': seq<bool>)
    requires SystemOk(t, fs, disk, used, first) && i < |t| && e.state == 1
    requires Unharmed(disk, used, Own(t, fs, i), disk', used', Blocks(g)) && FileOk(g, disk', used', first)
    ensures SystemOk(t[i := e], fs[i := g], disk', used', first)
    ensures Linked(g, disk') && |g.data| == DataBlocks(g.size)
    ensures Stored(t[i := e], fs[i := g], disk') == Stored(t, fs, disk)[i := Contents(g, disk')]
  {
    GoodFacts(g, disk', used', first);
    var t', fs' := t[i := e], fs[i := g];
    forall j | 0 <= j < |t| && t'[j].state == 1
      ensures FileOk(fs'[j], disk', used', first) && Readable(t', fs', disk', j)
      ensures j != i ==>
              Readable(t, fs, disk, j) && Contents(fs[j], disk') == Contents(fs[j], disk) && Apart(fs[j], g)
              && Apart(g, fs[j])
    {
      if j != i {
        OtherKept(t, fs, disk, used, first, i, disk', used', Blocks(g), j);
      }
    }
    hide FileOk, Linked, Contents, DataBlocks, Unharmed, Blocks;
  }

  /** Node `i` stops being a file, or was none: only its own blocks are given back. */
  lemma SystemDrop(t: seq<Entry>, fs: seq<File>, disk: Disk, used: seq<bool>, first: nat, i: nat, e: Entry, g: File,
                   used': seq<bool>)
    requires SystemOk(t, fs, disk, used, first) && i < |t| && e.state in {0, 2} && |g.indirect| == INDIRECT
             && |used'| == |used|
    requires forall b :: first <= b < |used| && used[b] && b !in Own(t, fs, i) ==> used'[b]
    ensures SystemOk(t[i := e], fs[i := g], disk, used', first)
    ensures Stored(t[i := e], fs[i := g], disk) == Stored(t, fs, disk) - {i}
  {
    var t', fs' := t[i := e], fs[i := g];
    forall j | 0 <= j < |t| && t'[j].state == 1
      ensures FileOk(fs'[j], disk, used', first) && Readable(t', fs', disk, j) && Readable(t, fs, disk, j)
    {
      OtherMarked(t, fs, disk, used, first, i, used', j);
    }
    StoredAll(t, fs, disk, used, first);
    DropBacks(t, fs, disk, used, first, i, used');
    hide FileOk, Linked, Contents, DataBlocks, Blocks, Stored, Backs, Own;
    StoredIs(t', fs', disk, used', first, Stored(t, fs, disk) - {i});
  }

  lemma DropBacks(t: seq<Entry>, fs: seq<File>, disk: Disk, used: seq<bool>, first: nat, i: nat, used': seq<bool>)
    requires SystemOk(t, fs, disk, used, first) && i < |t| && |used'| == |used|
    requires forall b :: first <= b < |used| && used[b] && b !in Own(t, fs, i) ==> used'[b]
    ensures Backs(used', disk)
  {
    if t[i].state == 1 {
      BlocksInside(fs[i], disk);
    }
  }

  lemma OtherMarked(t: seq<Entry>, fs: seq<File>, disk: Disk, used: seq<bool>, first: nat, i: nat, used': seq<bool>,
                    j: nat)
    requires SystemOk(t, fs, disk, used, first) && i < |t| && j < |t| && j != i && t[j].state == 1 && |used'| == |used|
    requires forall b :: first <= b < |used| && used[b] && b !in Own(t, fs, i) ==> used'[b]
    ensures Readable(t, fs, disk, j) && FileOk(fs[j], disk, used', first)
  {
    assert Apart(fs[if i < j then i else j], fs[if i < j then j else i]) || t[i].state != 1;
    DropBacks(t, fs, disk, used, first, i, used');
    FileFrame(fs[j], disk, used, first, disk, used');
  }

  // ---- what deletion gives back ----

  /** The blocks that `borrar_contenido` marks as unused.  It takes the size as an int: of
      a file of 2^31 bytes all but the first pointer block stay marked for ever.  When the size is a
      multiple of what a pointer block can reach, the last index that it reads is the mark
      0, the header's block. */
  ghost predicate Returned(f: File, b: nat) {
    if f.size == 0 then false
    else if f.size < HALF then b in Blocks(f) || (b == 0 && f.size % (POINTERS * BLOCK) == 0)
    else |f.ptrs| > 0 && b == f.ptrs[0]
  }

  /** Deletion gives back exactly the file's blocks when the file is neither empty, nor so big,
      nor ends with its pointer block. */
  lemma ReturnedIff(f: File, disk: Disk, used: seq<bool>, first: nat)
    requires FileOk(f, disk, used, first) && first > 0
    ensures (forall b: nat :: Returned(f, b) <==> b in Blocks(f)) <==>
            0 < f.size < HALF && f.size % (POINTERS * BLOCK) != 0
  {
    assert Blocks(f)[0] == f.data[0] && Blocks(f)[|f.data|] == f.ptrs[0];
    assert f.data[0] in Blocks(f) && f.data[0] != f.ptrs[0] && 0 !in Blocks(f);
    if 0 < f.size && f.size % (POINTERS * BLOCK) == 0 {
      assert Returned(f, 0) || f.size >= HALF;
    }
    if f.size == 0 || f.size >= HALF {
      assert !Returned(f, f.data[0]);
    }
  }

  /** Between two states of the table, the blocks of the deleted files have been given back,
      and nothing else. */
  ghost predicate GivenBack(t: seq<Entry>, fs: seq<File>, used: seq<bool>, r: seq<Entry>, used': seq<bool>)
    requires |fs| == |t| == |r|
  {
    && |used'| == |used|
    && forall b :: 0 <= b < |used| ==> (used'[b] <==> used[b] && !ReturnedBetween(t, fs, r, b))
  }

  ghost predicate ReturnedBetween(t: seq<Entry>, fs: seq<File>, r: seq<Entry>, b: nat)
    requires |fs| == |t| == |r|
  {
    exists i :: 0 <= i < |t| && t[i].state == 1 && r[i].state == 0 && Returned(fs[i], b)
  }

  lemma GivenBackTwice(t: seq<Entry>, fs: seq<File>, u: seq<bool>, r: seq<Entry>, gs: seq<File>, v: seq<bool>,
                       s: seq<Entry>, w: seq<bool>)
    requires |fs| == |t| == |r| == |gs| == |s| && Fewer(t, r) && Fewer(r, s)
    requires forall i :: 0 <= i < |t| && r[i].state == 1 ==> gs[i] == fs[i]
    requires GivenBack(t, fs, u, r, v) && GivenBack(r, gs, v, s, w)
    ensures GivenBack(t, fs, u, s, w)
  {
    forall b | 0 <= b < |u| ensures w[b] <==> u[b] && !ReturnedBetween(t, fs, s, b) {
      if i :| 0 <= i < |t| && t[i].state == 1 && s[i].state == 0 && Returned(fs[i], b) {
        if r[i].state == 0 {
          assert ReturnedBetween(t, fs, r, b);
        } else {
          assert ReturnedBetween(r, gs, s, b);
        }
      }
      if ReturnedBetween(t, fs, r, b) {
        var i :| 0 <= i < |t| && t[i].state == 1 && r[i].state == 0 && Returned(fs[i], b);
        assert s[i].state == 0;
      }
      if ReturnedBetween(r, gs, s, b) {
        var i :| 0 <= i < |t| && r[i].state == 1 && s[i].state == 0 && Returned(gs[i], b);
        assert t[i].state == 1;
      }
    }
  }

  /** What is stored of `m` after the deletions that led to table `r`. */
  ghost function Kept(m: map<nat, seq<byte>>, r: seq<Entry>): map<nat, seq<byte>> {
    map i | i in m && i < |r| && r[i].state != 0 :: m[i]
  }

  lemma KeptTwice(m: map<nat, seq<byte>>, r: seq<Entry>, s: seq<Entry>)
    requires Fewer(r, s)
    ensures Kept(Kept(m, r), s) == Kept(m, s)
  {
  }

  lemma KeptDrop(m: map<nat, seq<byte>>, r: seq<Entry>, i: nat)
    requires i < |r| && (forall j :: j in m ==> j < |r| && r[j].state != 0)
    ensures Kept(m, Deleted(r, i)) == m - {i}
  {
  }

  /** What is stored after a directory has been removed. */
  lemma KeptBelow(m: map<nat, seq<byte>>, t: seq<Entry>, root: nat, r: seq<Entry>)
    requires Removed(t, root, r) && forall j :: j in m ==> j < |t| && t[j].state != 0
    ensures Kept(m, r) == map i | i in m && i != root && !Below(t, root, i) :: m[i]
  {
  }

  // ---- creation ----

  /** A new file has one data block, full of zeros, and one pointer block. */
  lemma CreatedOk(f: File, disk: Disk, used: seq<bool>, first: nat, b: nat, pb: nat, g: File, e: Disk, used': seq<bool>)
    requires DiskOk(disk) && Backs(used, disk) && f.size == 0 && f.data == [] && f.ptrs == []
             && |f.indirect| == INDIRECT
    requires first <= b < |used| && !used[b] && first <= pb < |used| && !used[b := true][pb]
             && used' == used[b := true][pb := true]
    requires Fits(f) && NeedsPointers(f) && b < WORD && g == WithBlock(f, b, pb)
             && e == WithPointer(f, disk, b, pb)[b := Zeros()]
    ensures FileOk(g, e, used', first) && Linked(g, e) && |g.data| == DataBlocks(g.size)
    ensures Contents(g, e) == [] && Unharmed(disk, used, [], e, used', Blocks(g))
  {
    PointerSet(Zeros(), 0, b, 0);
    assert g.data == [b] && g.ptrs == [pb] && Blocks(g) == [b, pb];
    assert Indexed(g, e, 0);
    hide SetPointer, Pointer;
  }

  /** A file without a data block is not in order. */
  lemma NoBlocks(t: seq<Entry>, fs: seq<File>, disk: Disk, used: seq<bool>, first: nat, i: nat)
    requires i < |t| == |fs| && t[i].state == 1 && fs[i].data == []
    ensures !SystemOk(t, fs, disk, used, first)
  {
  }

  lemma TooBig(t: seq<Entry>, fs: seq<File>, disk: Disk, used: seq<bool>, first: nat, i: nat)
    requires i < |t| == |fs| && t[i].state == 1 && fs[i].size > HALF
    ensures !SystemOk(t, fs, disk, used, first)
  {
  }

  lemma DiskIs(disk: Disk, disk': Disk, b: nat)
    requires DiskOk(disk) && b < |disk| && disk' == disk[b := Zeros()]
    ensures DiskOk(disk')
  {
  }

  lemma EmptyIs(f: File, disk: Disk)
    requires DiskOk(disk) && f.size == 0 && f.data == [] && f.ptrs == [] && |f.indirect| == INDIRECT
    ensures Linked(f, disk) && Fits(f) && NeedsPointers(f) && |f.data| * BLOCK == 0 && |disk| <= WORD
  {
  }

  // ---- the walk of `borrar_contenido` ----

  /** The bits of the first `k` data blocks and of the first `m` pointer blocks are cleared. */
  ghost predicate Cleared(f: File, used: seq<bool>, now: seq<bool>, k: nat, m: nat) {
    && |now| == |used| && k <= |f.data| && m <= |f.ptrs|
    && forall b :: 0 <= b < |used| ==> (now[b] <==> used[b] && b !in f.data[..k] && b !in f.ptrs[..m])
  }

  lemma ClearedNone(f: File, used: seq<bool>)
    ensures Cleared(f, used, used, 0, 0)
  {
  }

  lemma ClearedNot(f: File, used: seq<bool>, now: seq<bool>)
    requires Cleared(f, used, now, 0, 0)
    ensures now == used
  {
  }

  lemma ClearData(f: File, used: seq<bool>, now: seq<bool>, k: nat, m: nat)
    requires Cleared(f, used, now, k, m) && k < |f.data| && f.data[k] < |used|
    ensures |now| == |used| && Cleared(f, used, now[f.data[k] := false], k + 1, m)
  {
    assert f.data[..k + 1] == f.data[..k] + [f.data[k]];
  }

  lemma ClearPointers(f: File, used: seq<bool>, now: seq<bool>, k: nat, m: nat)
    requires Cleared(f, used, now, k, m) && m < |f.ptrs| && f.ptrs[m] < |used|
    ensures |now| == |used| && Cleared(f, used, now[f.ptrs[m] := false], k, m + 1)
  {
    assert f.ptrs[..m + 1] == f.ptrs[..m] + [f.ptrs[m]];
  }

  lemma BlockAt(f: File, disk: Disk, used: seq<bool>, first: nat, i: nat, j: nat)
    requires FileOk(f, disk, used, first) && j < POINTERS && i * POINTERS + j < |f.data|
    ensures i < |f.indirect| && f.indirect[i] < |disk| && |disk[f.indirect[i]]| == BLOCK
    ensures Pointer(disk[f.indirect[i]], j) == f.data[i * POINTERS + j] < |disk|
  {
    var k := i * POINTERS + j;
    assert k / POINTERS == i && k % POINTERS == j;
    assert Indexed(f, disk, k);
  }

  lemma PointersAt(f: File, disk: Disk, used: seq<bool>, first: nat, i: nat)
    requires FileOk(f, disk, used, first) && i <= |f.ptrs|
    ensures i < |f.indirect| && 0 < |disk| && f.indirect[i] == if i < |f.ptrs| then f.ptrs[i] else 0
    ensures f.indirect[i] < |disk| <= |used|
  {
    assert f.data[0] < |disk|;
    BlocksInside(f, disk);
    if i < |f.ptrs| {
      assert Blocks(f)[|f.data| + i] == f.ptrs[i];
      assert f.ptrs[i] in Blocks(f);
    }
  }

  /** How many blocks of each kind a file has, as `borrar_contenido` counts them. */
  lemma Counts(f: File, disk: Disk, used: seq<bool>, first: nat)
    requires FileOk(f, disk, used, first) && f.size > 0
    ensures var i, rest := f.size / (POINTERS * BLOCK), f.size % (POINTERS * BLOCK);
            && i * POINTERS + (rest + BLOCK - 1) / BLOCK == |f.data| && (rest + BLOCK - 1) / BLOCK <= POINTERS
            && |f.ptrs| == i + (if rest > 0 then 1 else 0) && |f.ptrs| > 0
    ensures f.size <= HALF
  {
  }

  lemma ClearedAll(f: File, used: seq<bool>, now: seq<bool>, now': seq<bool>)
    requires 0 < f.size < HALF
    requires f.size % (POINTERS * BLOCK) != 0 ==> Cleared(f, used, now', |f.data|, |f.ptrs|)
    requires f.size % (POINTERS * BLOCK) == 0 ==>
             Cleared(f, used, now, |f.data|, |f.ptrs|) && 0 < |now| && now' == now[0 := false]
    ensures |now'| == |used| && forall b :: 0 <= b < |used| ==> (now'[b] <==> used[b] && !Returned(f, b))
  {
    assert f.data[..|f.data|] == f.data && f.ptrs[..|f.ptrs|] == f.ptrs;
  }

  lemma ClearedFirst(f: File, used: seq<bool>, now: seq<bool>)
    requires f.size >= HALF && |f.ptrs| > 0 && f.ptrs[0] < |used| && now == used[f.ptrs[0] := false]
    ensures forall b :: 0 <= b < |used| ==> (now[b] <==> used[b] && !Returned(f, b))
  {
  }

  // ---- deleting one node, and all that is below one ----

  /** Table, files and bitmap after deletions, as against those before them. */
  ghost predicate Shrunk(t: seq<Entry>, fs: seq<File>, used: seq<bool>, r: seq<Entry>, gs: seq<File>,
                         used': seq<bool>) {
    && |fs| == |t| == |r| == |gs| && Fewer(t, r) && GivenBack(t, fs, used, r, used')
    && forall j :: 0 <= j < |t| && r[j].state != 0 ==> gs[j] == fs[j]
  }

  lemma ShrunkIs(t: seq<Entry>, fs: seq<File>, used: seq<bool>, r: seq<Entry>, gs: seq<File>, used': seq<bool>)
    requires Shrunk(t, fs, used, r, gs, used')
    ensures Fewer(t, r) && LiveCount(r) <= LiveCount(t)
  {
    FewerCount(t, r);
  }

  lemma ShrunkTwice(t: seq<Entry>, fs: seq<File>, u: seq<bool>, r: seq<Entry>, gs: seq<File>, v: seq<bool>,
                    s: seq<Entry>, hs: seq<File>, w: seq<bool>)
    requires Shrunk(t, fs, u, r, gs, v) && Shrunk(r, gs, v, s, hs, w)
    ensures Shrunk(t, fs, u, s, hs, w)
  {
    GivenBackTwice(t, fs, u, r, gs, v, s, w);
    hide GivenBack;
  }

  /** A node is deleted; when it was a file, its blocks are given back. */
  lemma ShrunkByOne(t: seq<Entry>, fs: seq<File>, u: seq<bool>, i: nat, g: File, v: seq<bool>)
    requires |fs| == |t| && i < |t| && t[i].state != 0 && |v| == |u|
    requires t[i].state != 1 || fs[i].size == 0 ==> v == u
    requires t[i].state == 1 ==> forall b :: 0 <= b < |u| ==> (v[b] <==> u[b] && !Returned(fs[i], b))
    ensures Shrunk(t, fs, u, Deleted(t, i), fs[i := g], v)
  {
    var r := Deleted(t, i);
    forall b | 0 <= b < |u| ensures v[b] <==> u[b] && !ReturnedBetween(t, fs, r, b) {
      if t[i].state == 1 && Returned(fs[i], b) {
        assert r[i].state == 0;
      }
    }
  }

  /** Only the file's own blocks in the data area are given back. */
  lemma ReturnedOwn(t: seq<Entry>, fs: seq<File>, disk: Disk, used: seq<bool>, first: nat, i: nat, b: nat)
    requires SystemOk(t, fs, disk, used, first) && i < |t| && t[i].state == 1 && first <= b && Returned(fs[i], b)
    ensures b in Own(t, fs, i)
  {
    assert Blocks(fs[i])[|fs[i].data|] == fs[i].ptrs[0];
    assert Blocks(fs[i])[|fs[i].data|] in Blocks(fs[i]);
  }

  lemma NothingReturned(f: File)
    ensures f.size == 0 ==> forall b :: !Returned(f, b)
  {
  }

  lemma DeletedIs(t: seq<Entry>, i: nat)
    requires i < |t|
    ensures Deleted(t, i) == t[i := t[i].(state := 0)]
  {
  }

  lemma ChildIs(t: seq<Entry>, i: nat, c: nat)
    ensures IsChild(t, i, c) <==> c < |t| && t[c].state != 0 && t[c].parent == i + 2
  {
  }

  // ---- the rounds of `borrar_directorio` ----

  /** The scan for the children of `root` has reached node `c`. */
  ghost predicate Removing(t: seq<Entry>, fs: seq<File>, used: seq<bool>, m: map<nat, seq<byte>>, root: nat,
                           r: seq<Entry>, gs: seq<File>, u: seq<bool>, kept: map<nat, seq<byte>>, c: nat) {
    && (forall j :: j in m ==> j < |t| && t[j].state != 0)
    && Scanning(t, root, r, c) && Shrunk(t, fs, used, r, gs, u) && kept == Kept(m, r)
    && LiveCount(r) < LiveCount(t)
  }

  lemma RemovingFalls(t: seq<Entry>, fs: seq<File>, used: seq<bool>, m: map<nat, seq<byte>>, root: nat,
                      r: seq<Entry>, gs: seq<File>, u: seq<bool>, kept: map<nat, seq<byte>>, c: nat)
    requires Removing(t, fs, used, m, root, r, gs, u, kept, c)
    ensures LiveCount(r) < LiveCount(t)
  {
  }

  lemma RemovingStarts(t: seq<Entry>, fs: seq<File>, used: seq<bool>, m: map<nat, seq<byte>>, root: nat, gs: seq<File>,
                       u: seq<bool>)
    requires root < |t| && t[root].state != 0 && (forall j :: j in m ==> j < |t| && t[j].state != 0)
    requires Shrunk(t, fs, used, Deleted(t, root), gs, u)
    ensures Removing(t, fs, used, m, root, Deleted(t, root), gs, u, m - {root}, 0)
  {
    hide *;
    ScanStarts(t, root);
    KeptDrop(m, t, root);
    DeletedCount(t, root);
    IsRemoving(t, fs, used, m, root, Deleted(t, root), gs, u, m - {root}, 0);
  }

  lemma IsRemoving(t: seq<Entry>, fs: seq<File>, used: seq<bool>, m: map<nat, seq<byte>>, root: nat,
                   r: seq<Entry>, gs: seq<File>, u: seq<bool>, kept: map<nat, seq<byte>>, c: nat)
    requires forall j :: j in m ==> j < |t| && t[j].state != 0
    requires Scanning(t, root, r, c) && Shrunk(t, fs, used, r, gs, u) && kept == Kept(m, r)
             && LiveCount(r) < LiveCount(t)
    ensures Removing(t, fs, used, m, root, r, gs, u, kept, c)
  {
  }

  lemma RemovingSkips(t: seq<Entry>, fs: seq<File>, used: seq<bool>, m: map<nat, seq<byte>>, root: nat,
                      r: seq<Entry>, gs: seq<File>, u: seq<bool>, kept: map<nat, seq<byte>>, c: nat)
    requires Removing(t, fs, used, m, root, r, gs, u, kept, c) && c < |r| && !IsChild(r, root, c)
    ensures Removing(t, fs, used, m, root, r, gs, u, kept, c + 1)
  {
    ScanSkips(t, root, r, c);
  }

  /** The scan goes on with what a deletion has left. */
  lemma RemovingMore(t: seq<Entry>, fs: seq<File>, used: seq<bool>, m: map<nat, seq<byte>>, root: nat,
                     r: seq<Entry>, gs: seq<File>, u: seq<bool>, kept: map<nat, seq<byte>>, c: nat,
                     s: seq<Entry>, hs: seq<File>, v: seq<bool>)
    requires Removing(t, fs, used, m, root, r, gs, u, kept, c) && Shrunk(r, gs, u, s, hs, v)
             && Scanning(t, root, s, c + 1)
    ensures Removing(t, fs, used, m, root, s, hs, v, Kept(kept, s), c + 1)
  {
    ShrunkIs(r, gs, u, s, hs, v);
    ShrunkTwice(t, fs, used, r, gs, u, s, hs, v);
    KeptTwice(m, r, s);
    hide Scanning, Shrunk, Kept;
  }

  lemma RemovingFile(t: seq<Entry>, fs: seq<File>, used: seq<bool>, m: map<nat, seq<byte>>, root: nat,
                     r: seq<Entry>, gs: seq<File>, u: seq<bool>, kept: map<nat, seq<byte>>, c: nat, hs: seq<File>,
                       v: seq<bool>)
    requires Removing(t, fs, used, m, root, r, gs, u, kept, c) && c < |r| && IsChild(r, root, c) && r[c].state == 1
    requires Shrunk(r, gs, u, Deleted(r, c), hs, v) && forall j :: j in kept ==> j < |r| && r[j].state != 0
    ensures Removing(t, fs, used, m, root, Deleted(r, c), hs, v, kept - {c}, c + 1)
  {
    ScanFile(t, root, r, c);
    KeptDrop(kept, r, c);
    RemovingMore(t, fs, used, m, root, r, gs, u, kept, c, Deleted(r, c), hs, v);
  }

  lemma RemovingDirectory(t: seq<Entry>, fs: seq<File>, used: seq<bool>, m: map<nat, seq<byte>>, root: nat,
                          r: seq<Entry>, gs: seq<File>, u: seq<bool>, kept: map<nat, seq<byte>>, c: nat,
                          s: seq<Entry>, hs: seq<File>, v: seq<bool>)
    requires Removing(t, fs, used, m, root, r, gs, u, kept, c) && c < |r| && IsChild(r, root, c) && r[c].state != 1
    requires Removed(r, c, s) && Shrunk(r, gs, u, s, hs, v) && forall j :: j in kept ==> j < |r| && r[j].state != 0
    ensures Removing(t, fs, used, m, root, s, hs, v, map j | j in kept && j != c && !Below(r, c, j) :: kept[j], c + 1)
  {
    ScanDirectory(t, root, r, c, s);
    KeptBelow(kept, r, c, s);
    RemovingMore(t, fs, used, m, root, r, gs, u, kept, c, s, hs, v);
  }

  lemma RemovingEnds(t: seq<Entry>, fs: seq<File>, used: seq<bool>, m: map<nat, seq<byte>>, root: nat,
                     r: seq<Entry>, gs: seq<File>, u: seq<bool>, kept: map<nat, seq<byte>>, c: nat)
    requires Removing(t, fs, used, m, root, r, gs, u, kept, c) && c == |r|
    ensures Removed(t, root, r) && Shrunk(t, fs, used, r, gs, u)
    ensures kept == map j | j in m && j != root && !Below(t, root, j) :: m[j]
  {
    ScanEnds(t, root, r);
    KeptBelow(m, t, root, r);
  }
}
