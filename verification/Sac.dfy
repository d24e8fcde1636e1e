/** The imperative file system: disk, bitmap and node table in place. */
module Sac {
  import opened Bytes
  import opened Sequences
  import opened SacFiles
  import opened SacTree
  import opened SacState

  const EDQUOT: int := 122

  /** `GFile`: state 0 is a deleted node, 1 a file and 2 a directory. */
  class Node {
    var state: nat
    var fileSize: nat
    var parent: nat
    var indirect: seq<nat>
    ghost var data: seq<nat>   // the file's data blocks, in order
    ghost var ptrs: seq<nat>   // its pointer blocks

    constructor ()
      ensures state == 0 && fileSize == 0 && parent == 0 && |indirect| == INDIRECT && data == ptrs == []
    {
      state, fileSize, parent, data, ptrs := 0, 0, 0, [], [];
      indirect := seq(INDIRECT, i => 0);
    }
  }

  ghost function FileOf(n: Node): File
    reads n
  {
    File(n.fileSize, n.indirect, n.data, n.ptrs)
  }

  ghost function FilesOf(ns: seq<Node>): (fs: seq<File>)
    reads ns
    ensures |fs| == |ns| && forall i :: 0 <= i < |ns| ==> fs[i] == FileOf(ns[i])
  {
    if ns == [] then [] else FilesOf(ns[..|ns| - 1]) + [FileOf(ns[|ns| - 1])]
  }

  ghost function TableOf(ns: seq<Node>): (t: seq<Entry>)
    reads ns`state, ns`parent
    ensures |t| == |ns| && forall i :: 0 <= i < |ns| ==> t[i] == Entry(ns[i].state, ns[i].parent)
  {
    if ns == [] then [] else TableOf(ns[..|ns| - 1]) + [Entry(ns[|ns| - 1].state, ns[|ns| - 1].parent)]
  }

  class Sac {
    const first: nat                // the first block that `get_bloque_vacio` looks at
    const disk: array<seq<byte>>
    const bitmap: array<bool>       // true while the block is used
    const nodes: seq<Node>

    /** A file system whose nodes are all deleted. */
    constructor (first: nat, disk: array<seq<byte>>, bitmap: array<bool>, nodes: seq<Node>)
      requires 0 < first <= disk.Length && Backs(bitmap[..], disk[..]) && DiskOk(disk[..]) && Distinct(nodes)
      requires forall i :: 0 <= i < |nodes| ==> nodes[i].state == 0 && |nodes[i].indirect| == INDIRECT
      ensures this.first == first && this.disk == disk && this.bitmap == bitmap && this.nodes == nodes
      ensures Valid() && Files() == map[]
    {
      this.first, this.disk, this.bitmap, this.nodes := first, disk, bitmap, nodes;
    }

    /** `get_bloque_vacio`: the lowest unused block, which is marked, or -1. */
    method GetFreeBlock() returns (b: int)
      requires first <= bitmap.Length
      modifies bitmap
      ensures b == -1 <==> old(FreeFrom(bitmap[..], first)) == 0
      ensures b == -1 ==> bitmap[..] == old(bitmap[..])
      ensures b != -1 ==>
                && first <= b < bitmap.Length && !old(bitmap[..])[b] && bitmap[..] == old(bitmap[..])[b := true]
                && (forall c :: first <= c < b ==> old(bitmap[..])[c])
                && FreeFrom(bitmap[..], first) == old(FreeFrom(bitmap[..], first)) - 1
    {
      b := first;
      while b < bitmap.Length && bitmap[b]
        invariant first <= b <= bitmap.Length
        invariant forall c :: first <= c < b ==> bitmap[c]
      {
        b := b + 1;
      }
      if b == bitmap.Length {
        assert forall c :: first <= c < bitmap.Length ==> bitmap[..][c];
        return -1;
      }
      assert !bitmap[..][b];
      TakeFree(bitmap[..], first, b);
      bitmap[b] := true;
    }

    /** `cantidad_bloques_libres`. */
    method CountFree() returns (n: nat)
      requires first <= bitmap.Length
      ensures n == FreeFrom(bitmap[..], first)
    {
      n := 0;
      var i := first;
      while i < bitmap.Length
        invariant first <= i <= bitmap.Length
        invariant n + FreeFrom(bitmap[..], i) == FreeFrom(bitmap[..], first)
      {
        if !bitmap[i] {
          n := n + 1;
        }
        i := i + 1;
      }
    }

    /** The file is in order and its blocks are its own. */
    ghost predicate Good(n: Node)
      reads n, disk, bitmap
    {
      FileOk(FileOf(n), disk[..], bitmap[..], first)
    }

    /** `indirect_blocks_array[k]` of a node.  A negative index is in the node before it, a
        block away. */
    method GetIndex(n: Node, prev: Node, k: int) returns (v: nat)
      requires 0 <= NODE + k && k < |n.indirect| && (k < 0 ==> NODE + k < |prev.indirect|)
      ensures k >= 0 ==> v == n.indirect[k]
    {
      v := if k >= 0 then n.indirect[k] else prev.indirect[NODE + k];
    }

    method SetIndex(n: Node, prev: Node, k: int, v: nat)
      requires n != prev && 0 <= NODE + k && k < |n.indirect| && (k < 0 ==> NODE + k < |prev.indirect|)
      modifies n`indirect, prev`indirect
      ensures n.indirect == if k >= 0 then old(n.indirect)[k := v] else old(n.indirect)
      ensures prev.indirect == if k < 0 then old(prev.indirect)[NODE + k := v] else old(prev.indirect)
    {
      if k >= 0 {
        n.indirect := n.indirect[k := v];
      } else {
        prev.indirect := prev.indirect[NODE + k := v];
      }
    }

    /** A new pointer block for index `number`, with the mark 0 after it. */
    method NextPointers(n: Node, prev: Node, number: int) returns (block: int)
      requires Backs(bitmap[..], disk[..]) && first <= disk.Length && n != prev
               && |n.indirect| == |prev.indirect| == INDIRECT
      requires 0 <= number < INDIRECT - 1 || number == -512
      modifies n`indirect, prev`indirect, disk, bitmap
      ensures block == -1 || first <= block < disk.Length
      ensures block == -1 ==>
                && FreeFrom(bitmap[..], first) == 0 && bitmap[..] == old(bitmap[..]) && disk[..] == old(disk[..])
                && n.indirect == old(n.indirect) && prev.indirect == old(prev.indirect)
      ensures block != -1 ==>
                && !old(bitmap[..])[block] && bitmap[..] == old(bitmap[..])[block := true]
                && disk[..] == old(disk[..])[block := Zeros()]
                && FreeFrom(bitmap[..], first) == old(FreeFrom(bitmap[..], first)) - 1
                && n.indirect == (if number >= 0 then old(n.indirect)[number := block][number + 1 := 0]
                   else old(n.indirect))
                && if number >= 0 then prev.indirect == old(prev.indirect)
                   else Overwritten(old(prev.indirect), prev.indirect, block)
    {
      block := GetFreeBlock();
      if block < 0 {
        return;
      }
      disk[block] := Zeros();
      SetIndex(n, prev, number, block);
      SetIndex(n, prev, number + 1, 0);
    }

    /** `agregar_nodo`: block `b` becomes the file's next data block.  It fails, with nothing
        changed, exactly when a pointer block is needed and no block is free.  A file of 2^31
        bytes does not get the block: its pointer block goes to the node before. */
    method AddBlock(n: Node, prev: Node, b: nat) returns (r: int, ghost pb: nat)
      requires Backs(bitmap[..], disk[..]) && first <= disk.Length && Linked(FileOf(n), disk[..]) && n != prev
      requires |prev.indirect| == INDIRECT
      requires n.fileSize == |n.data| * BLOCK <= HALF && Fits(FileOf(n)) && b < WORD
      modifies n`indirect, n`data, n`ptrs, prev`indirect, disk, bitmap
      ensures r == 0 || r == -1
      ensures var f, used := old(FileOf(n)), old(bitmap[..]);
              if r != 0 then
                && FileOf(n) == f && disk[..] == old(disk[..]) && bitmap[..] == used
                && NeedsPointers(f) && FreeFrom(used, first) == 0
              else
                && pb < disk.Length
                && (if NeedsPointers(f) then first <= pb && !used[pb] && bitmap[..] == used[pb := true]
                   && FreeFrom(bitmap[..], first) == FreeFrom(used, first) - 1
                    else |f.data| / POINTERS < |f.ptrs| && pb == f.ptrs[|f.data| / POINTERS] && bitmap[..] == used)
                && (f.size < HALF ==> FileOf(n) == WithBlock(f, b, pb))
                && (f.size == HALF ==> FileOf(n) == f)
                && disk[..] == WithPointer(f, old(disk[..]), b, pb)
      ensures if r == 0 && n.fileSize == HALF then Overwritten(old(prev.indirect), prev.indirect, pb)
              else prev.indirect == old(prev.indirect)
    {
      ghost var f := FileOf(n);
      var block, position := PointersFor(n, prev);
      if block < 0 {
        return block, 0;
      }
      disk[block] := SetPointer(disk[block], position, b);
      if n.fileSize < HALF {
        n.data := n.data + [b];
      }
      hide Linked, Backs, FreeFrom, SetPointer, Zeros, Overwritten;
      r, pb := 0, block;
    }

    /** The pointer block in which `agregar_nodo` puts the next pointer, and the place in it. */
    method PointersFor(n: Node, prev: Node) returns (block: int, position: int)
      requires Backs(bitmap[..], disk[..]) && first <= disk.Length && Linked(FileOf(n), disk[..]) && n != prev
      requires |n.indirect| == |prev.indirect| == INDIRECT
      requires n.fileSize == |n.data| * BLOCK <= HALF && Fits(FileOf(n))
      modifies n`indirect, n`ptrs, prev`indirect, disk, bitmap
      ensures -1 <= block < disk.Length && position == |n.data| % POINTERS
      ensures block == -1 ==>
                && FileOf(n) == old(FileOf(n)) && disk[..] == old(disk[..]) && bitmap[..] == old(bitmap[..])
                && NeedsPointers(FileOf(n)) && FreeFrom(bitmap[..], first) == 0
      ensures var f, used := old(FileOf(n)), old(bitmap[..]);
              block >= 0 ==>
                if NeedsPointers(f) then
                  && first <= block && !used[block] && bitmap[..] == used[block := true]
                  && FreeFrom(bitmap[..], first) == FreeFrom(used, first) - 1
                  && disk[..] == old(disk[..])[block := Zeros()]
                  && (f.size < HALF ==>
                        && n.ptrs == f.ptrs + [block] && |f.ptrs| + 1 < INDIRECT
                        && n.indirect == f.indirect[|f.ptrs| := block][|f.ptrs| + 1 := 0])
                  && (f.size == HALF ==> FileOf(n) == f)
                else
                  && |f.data| / POINTERS < |f.ptrs| && block == f.ptrs[|f.data| / POINTERS]
                  && bitmap[..] == used && disk[..] == old(disk[..]) && FileOf(n) == f
      ensures if block >= 0 && n.fileSize == HALF then Overwritten(old(prev.indirect), prev.indirect, block)
              else prev.indirect == old(prev.indirect)
    {
      LastPointers(FileOf(n), disk[..]);
      PlaceOf(n.fileSize);
      PositionIs(n.fileSize, |n.data|);
      var number;
      number, position := Number(n.fileSize), Position(n.fileSize);
      var entry := GetIndex(n, prev, number);
      if entry != 0 && position == POINTERS {
        position := 0;
        number := number + 1;
      }
      if position == 0 {
        block := NextPointers(n, prev, number);
        if block >= 0 && number >= 0 {
          n.ptrs := n.ptrs + [block];
        }
      } else {
        block := GetIndex(n, prev, number);
      }
    }

    lemma GoodIs(n: Node)
      ensures Good(n) <==> FileOk(FileOf(n), disk[..], bitmap[..], first)
      ensures FileOf(n) == File(n.fileSize, n.indirect, n.data, n.ptrs)
    {
    }

    /** A round of `escribir_archivo` on a full file: a block is obtained and added, and
        `chunk` written at its start.  Without the blocks it needs nothing is written.  On a
        file of 2^31 bytes the blocks are taken all the same, but the file's index does not get
        them. */
    method WriteNew(n: Node, prev: Node, chunk: seq<byte>) returns (r: int)
      requires Good(n) && n.fileSize == |n.data| * BLOCK && Fits(FileOf(n)) && 0 < |chunk| <= BLOCK
               && first <= bitmap.Length
      requires n != prev && |prev.indirect| == INDIRECT
      modifies n`indirect, n`data, n`ptrs, n`fileSize, prev`indirect, disk, bitmap
      ensures r == 0 && old(n.fileSize) < HALF ==>
                Appended(old(FileOf(n)), old(disk[..]), old(bitmap[..]), first, chunk, FileOf(n), disk[..], bitmap[..])
      ensures r == 0 && old(n.fileSize) == HALF ==>
                && n.fileSize == HALF + |chunk| && n.indirect == old(n.indirect)
                && old(FreeFrom(bitmap[..], first)) >= 2
                && Damaged(old(prev.indirect), prev.indirect, first)
      ensures !(r == 0 && old(n.fileSize) == HALF) ==> prev.indirect == old(prev.indirect)
      ensures r != 0 ==>
                && (r == -ENOSPC || r == -1) && Good(n) && FileOf(n) == old(FileOf(n)) && disk[..] == old(disk[..])
                && Unharmed(disk[..], old(bitmap[..]), Blocks(FileOf(n)), disk[..], bitmap[..], Blocks(FileOf(n)))
                && old(FreeFrom(bitmap[..], first)) < (if NeedsPointers(FileOf(n)) then 2 else 1)
                && old(FreeFrom(bitmap[..], first)) - FreeFrom(bitmap[..], first) == (if r == -1 then 1 else 0)
                && FreeFrom(bitmap[..], first) == 0 && (r == -1 ==> NeedsPointers(FileOf(n)))
    {
      hide *;
      ghost var f, d, used := FileOf(n), disk[..], bitmap[..];
      GoodIs(n);
      GoodFacts(f, d, used, first);
      var free := CountFree();
      if free == 0 {
        UnharmedSame(d, used, Blocks(f));
        r := -ENOSPC;
        EnospcIs();
        return;
      }
      var b := GetFreeBlock();
      UnusedInside(used, d, b);
      StillBacks(d, used, d, bitmap[..]);
      HalfNeeds(f);
      LimitIs();
      ghost var pb;
      r, pb := AddBlock(n, prev, b);
      if r != 0 {
        GoodIs(n);
        LeakedOk(f, d, used, first, b);
        return;
      }
      MapSize(disk[..], b);
      GoodIs(n);
      SameSize(f, b, pb);
      disk[b] := Splice(disk[b], 0, chunk);
      n.fileSize := n.fileSize + |chunk|;
      if f.size == HALF {
        OverwrittenIs(old(prev.indirect), prev.indirect, first, pb);
      } else {
        GoodIs(n);
        IsTaken(f, used, first, b, pb, bitmap[..]);
        IsNewWhen(f, d, b, pb, chunk, FileOf(n), disk[..]);
        NewIsOk(f, d, used, first, b, pb, chunk, FileOf(n), disk[..], bitmap[..]);
        GoodFacts(FileOf(n), disk[..], bitmap[..], first);
        OneAppended(f, d, used, first, chunk, FileOf(n), disk[..], bitmap[..]);
      }
    }

    /** `setear_posicion` and the two lookups that follow it: the data block at an offset. */
    method Locate(n: Node, off: nat) returns (block: nat)
      requires Good(n) && off < HALF && off / BLOCK < |n.data|
      ensures block == n.data[off / BLOCK] && block < disk.Length && |disk[block]| == BLOCK && DiskOk(disk[..])
    {
      PlaceOf(off);
      var number, position := Number(off), Position(off);
      assert Indexed(FileOf(n), disk[..], off / BLOCK);
      var pointers := n.indirect[number];
      block := Pointer(disk[pointers], position);
    }

    /** A round of `escribir_archivo` in the block where the file ends. */
    method WriteOld(n: Node, at: nat, chunk: seq<byte>)
      requires Good(n) && n.fileSize < HALF && n.fileSize / BLOCK < |n.data| && at == n.fileSize % BLOCK
               && at + |chunk| <= BLOCK && |chunk| > 0 && first <= bitmap.Length
      modifies n`fileSize, disk
      ensures Appended(old(FileOf(n)), old(disk[..]), bitmap[..], first, chunk, FileOf(n), disk[..], bitmap[..])
    {
      hide *;
      ghost var f, d, used := FileOf(n), disk[..], bitmap[..];
      GoodIs(n);
      GoodFacts(f, d, used, first);
      ReachIs();
      var block := Locate(n, n.fileSize);
      OffsetIs(n.fileSize);
      disk[block] := Splice(disk[block], at, chunk);
      n.fileSize := n.fileSize + |chunk|;
      GoodIs(n);
      OldIsOk(f, d, used, first, f.size / BLOCK, at, chunk, FileOf(n), disk[..]);
      GoodFacts(FileOf(n), disk[..], bitmap[..], first);
      OneAppended(f, d, used, first, chunk, FileOf(n), disk[..], bitmap[..]);
    }

    /** `escribir_archivo` at the end of the file, from a block boundary or with less than a
        block.  `lost`: an offset of 2^31 had to be located and both blocks were there, so that
        the round wrote outside the file's index; what the source does with bytes that are left
        then is not modelled. */
    method Write(n: Node, prev: Node, buf: seq<byte>, offset: nat) returns (r: int, ghost lost: bool)
      requires Good(n) && first <= bitmap.Length && offset == n.fileSize && (offset % BLOCK == 0 || |buf| < BLOCK)
      requires n != prev && |prev.indirect| == INDIRECT
      modifies n`indirect, n`data, n`ptrs, n`fileSize, prev`indirect, disk, bitmap
      ensures lost <==> Outside(old(FileOf(n)), |buf|, old(FreeFrom(bitmap[..], first)))
      ensures lost ==> n.fileSize > HALF && |n.indirect| == INDIRECT && n.indirect[512] == 0
      ensures lost ==> Damaged(old(prev.indirect), prev.indirect, first)
      ensures !lost ==> prev.indirect == old(prev.indirect)
      ensures !lost ==> Written(old(FileOf(n)), old(disk[..]), old(bitmap[..]), first, buf, FileOf(n), disk[..],
              bitmap[..], r)
    {
      hide *;
      ghost var f, d, used := FileOf(n), disk[..], bitmap[..];
      GoodIs(n);
      NothingAppended(f, d, used, first);
      OutsideIs(f, |buf|, FreeFrom(used, first));
      var tam, file_size, off := |buf|, n.fileSize, offset;
      var offset_in_block := offset % BLOCK;
      lost := false;
      if file_size + |buf| >= LIMIT {
        TooMuch(f, d, used, first, buf);
        r := -EFBIG;
        return;
      }
      var done := 0;
      while tam != 0
        invariant 0 <= tam && tam + done == |buf| && file_size == n.fileSize == off == f.size + done
        invariant tam >= BLOCK ==> off % BLOCK == 0
        invariant offset_in_block == off % BLOCK
        invariant Appended(f, d, used, first, buf[..done], FileOf(n), disk[..], bitmap[..])
        invariant prev.indirect == old(prev.indirect)
      {
        ghost var g, e, u := FileOf(n), disk[..], bitmap[..];
        GoodIs(n);
        AppendedFacts(f, d, used, first, buf[..done], g, e, u);
        var space := BLOCK - file_size % BLOCK;
        if space == BLOCK {
          space := 0;
        }
        if file_size == 0 {
          space := BLOCK;
        }
        var full := off >= file_size + space && file_size != 0;
        if full {
          space := BLOCK;
        }
        var count := if tam >= BLOCK then BLOCK else if tam <= space then tam else space;
        var chunk := buf[done..done + count];
        if full {
          RoundNew(g, e, u, first, tam);
          r := WriteNew(n, prev, chunk);
          if r != 0 {
            GoodIs(n);
            IsStopped(g, bitmap[..], first, r);
            PartWritten(f, d, used, first, buf, done, g, e, u, bitmap[..], r);
            return;
          }
          if file_size == HALF {
            lost := true;
            HalfFits(f, d, used, first, buf[..done], g, e, u);
            HalfIs(g, e, u, first);
            return;
          }
        } else {
          RoundOld(g, e, u, first);
          WriteOld(n, if tam >= BLOCK then 0 else offset_in_block, chunk);
        }
        GoodIs(n);
        MoreAppended(f, d, used, first, buf, done, g, e, u, chunk, FileOf(n), disk[..], bitmap[..]);
        Aligned(off);
        file_size, off, tam, done := file_size + count, off + count, tam - count, done + count;
        offset_in_block := off % BLOCK;
      }
      AllWritten(f, d, used, first, buf, FileOf(n), disk[..], bitmap[..]);
      r := |buf|;
    }

    /** `leer_archivo`: of the bytes asked for those that the file has, as `BytesRead` says. */
    method Read(n: Node, size: nat, offset: nat) returns (r: nat, buffer: seq<byte>)
      requires Good(n) && Linked(FileOf(n), disk[..]) && |n.data| == DataBlocks(n.fileSize)
      requires Mapped(FileOf(n), disk[..], offset, Available(FileOf(n), offset, size))
      ensures r == |buffer| && buffer == BytesRead(FileOf(n), disk[..], offset, Available(FileOf(n), offset, size))
    {
      hide *;
      LimitIs();
      GoodIs(n);
      ghost var f, d, used := FileOf(n), disk[..], bitmap[..];
      SizeBound(f, d, used, first);
      AvailableIs(f, offset, size);
      var tam, off := size, offset;
      if n.fileSize <= offset {
        NothingRead(f, d, offset);
        return 0, [];
      } else if n.fileSize <= offset + size {
        tam := n.fileSize - offset;
      }
      ghost var want := BytesRead(f, d, offset, tam);
      r, buffer := tam, [];
      StartsReading(f, d, offset, tam);
      for i := 0 to INDIRECT
        invariant Copied(want, buffer, tam) && Seeking(f, d, want, buffer, tam, i * POINTERS, off)
      {
        if off > BLOCK * POINTERS {
          Skips(f, d, want, buffer, tam, i * POINTERS, off);
          off := off - BLOCK * POINTERS;
          continue;
        }
        for j := 0 to POINTERS
          invariant Copied(want, buffer, tam) && Seeking(f, d, want, buffer, tam, i * POINTERS + j, off)
        {
          if off >= BLOCK {
            SkipsOne(f, d, want, buffer, tam, i * POINTERS + j, off);
            off := off - BLOCK;
            continue;
          }
          var count := if tam < BLOCK then tam else BLOCK;
          SeekingIs(f, d, want, buffer, tam, i * POINTERS + j, off);
          FoundAt(f, d, used, first, i, j, off, count);
          Reads(f, d, want, buffer, tam, i * POINTERS + j, off, count);
          var block := Pointer(disk[n.indirect[i]], j);
          buffer := buffer + FromBlock(disk[..], block, off, count);
          off := 0;
          tam := tam - count;
          if tam == 0 {
            break;
          }
        }
        if tam == 0 {
          break;
        }
        EndsAt(i);
      }
      AllCopied(f, d, want, buffer, tam, off);
    }

    // ---- the whole file system ----

    ghost predicate Valid()
      reads nodes, disk, bitmap
    {
      && Distinct(nodes)
      && SystemOk(TableOf(nodes), FilesOf(nodes), disk[..], bitmap[..], first)
    }

    /** The bytes of each file, by its index in the table. */
    ghost function Files(): map<nat, seq<byte>>
      reads nodes, disk
    {
      Stored(TableOf(nodes), FilesOf(nodes), disk[..])
    }

    lemma FileIs(i: nat)
      requires Valid() && i < |nodes| && nodes[i].state == 1
      ensures Good(nodes[i]) && i in Files() && first <= bitmap.Length
      ensures Linked(FileOf(nodes[i]), disk[..]) && |nodes[i].data| == DataBlocks(nodes[i].fileSize)
      ensures Files()[i] == Contents(FileOf(nodes[i]), disk[..])
    {
      StoredAll(TableOf(nodes), FilesOf(nodes), disk[..], bitmap[..], first);
    }

    /** `leer_archivo` of a file: from a block boundary or within a block, the bytes that are
        stored. */
    method ReadFile(i: nat, size: nat, offset: nat) returns (r: nat, buffer: seq<byte>)
      requires Valid() && i < |nodes| && nodes[i].state == 1
      requires Mapped(FileOf(nodes[i]), disk[..], offset, Available(FileOf(nodes[i]), offset, size))
      ensures Linked(FileOf(nodes[i]), disk[..]) && |nodes[i].data| == DataBlocks(nodes[i].fileSize)
      ensures r == |buffer| == Available(FileOf(nodes[i]), offset, size)
              && buffer == BytesRead(FileOf(nodes[i]), disk[..], offset, r)
      ensures i in Files() && (r > 0 ==> offset + r <= |Files()[i]|)
      ensures r > 0 && (offset % BLOCK == 0 || offset % BLOCK + r <= BLOCK) ==> buffer == Files()[i][offset..offset + r]
    {
      hide *;
      FileIs(i);
      GoodIs(nodes[i]);
      LimitIs();
      r, buffer := Read(nodes[i], size, offset);
      if r > 0 && (offset % BLOCK == 0 || offset % BLOCK + r <= BLOCK) {
        ReadInPlace(FileOf(nodes[i]), disk[..], offset, r);
      }
    }

    /** `escribir_archivo` at the end of a file: its bytes are followed by those written, all
        of them exactly when the disk has the blocks they need, and every other file stays
        as it is; unless the file would get past 2^31 bytes and there are blocks for that. */
    method WriteFile(i: nat, buf: seq<byte>, offset: nat) returns (r: int, ghost lost: bool)
      requires Valid() && i < |nodes| && nodes[i].state == 1
      requires offset == nodes[i].fileSize && (offset % BLOCK == 0 || |buf| < BLOCK)
      modifies nodes`indirect, {nodes[i]}`data, {nodes[i]}`ptrs, {nodes[i]}`fileSize, disk, bitmap
      ensures i in old(Files()) && first <= bitmap.Length && TableOf(nodes) == old(TableOf(nodes))
      ensures lost <==> Outside(old(FileOf(nodes[i])), |buf|, old(FreeFrom(bitmap[..], first)))
      ensures Valid() <==> !lost
      ensures lost ==> nodes[i].fileSize > HALF && |nodes[i].indirect| == INDIRECT && nodes[i].indirect[512] == 0
      ensures lost && i > 0 ==> Damaged(old(nodes[i - 1].indirect), nodes[i - 1].indirect, first)
      ensures !lost ==>
                && offset <= nodes[i].fileSize <= offset + |buf|
                && Files() == old(Files())[i := old(Files())[i] + buf[..nodes[i].fileSize - offset]]
      ensures !lost ==>
                old(FreeFrom(bitmap[..], first)) - FreeFrom(bitmap[..], first) ==
                BlocksFor(nodes[i].fileSize) - BlocksFor(offset) + if r == -1 then 1 else 0
      ensures offset + |buf| >= LIMIT ==> r == -EFBIG && nodes[i].fileSize == offset
      ensures !lost && offset + |buf| < LIMIT ==>
                && r == Answer(offset, |buf|, old(FreeFrom(bitmap[..], first)))
                && nodes[i].fileSize == Grown(offset, |buf|, old(FreeFrom(bitmap[..], first)))
    {
      hide *;
      ghost var t, fs, d, used := TableOf(nodes), FilesOf(nodes), disk[..], bitmap[..];
      ValidIs();
      FileIs(i);
      GoodIs(nodes[i]);
      // before the first node there is the bitmap, of which this is not a part
      var prev := new Node();
      if i > 0 {
        prev := nodes[i - 1];
        SystemFacts(t, fs, d, used, first, i - 1);
        GoodIs(nodes[i - 1]);
      }
      OutsideIs(fs[i], |buf|, FreeFrom(used, first));
      r, lost := Write(nodes[i], prev, buf, offset);
      Updated(t, TableOf(nodes), i, t[i]);
      GoodIs(nodes[i]);
      if lost {
        TooBig(TableOf(nodes), FilesOf(nodes), disk[..], bitmap[..], first, i);
      } else {
        OwnIs(t, fs, i);
        WrittenFacts(fs[i], d, used, first, buf, FileOf(nodes[i]), disk[..], bitmap[..], r);
        if offset + |buf| < LIMIT {
          WrittenExactly(fs[i], d, used, first, buf, FileOf(nodes[i]), disk[..], bitmap[..], r);
        }
        GrowthFor(fs[i], d, used, FileOf(nodes[i]), disk[..], bitmap[..], first, r);
        SystemPut(t, fs, d, used, first, i, t[i], FileOf(nodes[i]), disk[..], bitmap[..]);
        Updated(fs, FilesOf(nodes), i, FileOf(nodes[i]));
      }
      ValidIs();
    }

    /** The end of `crear_nuevo_nodo`: a new file gets its first block, full of zeros.  That no
        block is left for its pointers goes unnoticed. */
    method AddFirst(n: Node)
      requires Backs(bitmap[..], disk[..]) && first <= disk.Length && DiskOk(disk[..])
               && FreeFrom(bitmap[..], first) >= 1
      requires n.fileSize == 0 && n.data == n.ptrs == [] && |n.indirect| == INDIRECT
      modifies n`indirect, n`data, n`ptrs, disk, bitmap
      ensures Linked(FileOf(n), disk[..])
      ensures old(FreeFrom(bitmap[..], first)) == 1 ==> n.data == []
      ensures old(FreeFrom(bitmap[..], first)) >= 2 ==>
                && FileOk(FileOf(n), disk[..], bitmap[..], first)
                && |n.data| == DataBlocks(n.fileSize) && Contents(FileOf(n), disk[..]) == []
                && Unharmed(old(disk[..]), old(bitmap[..]), [], disk[..], bitmap[..], Blocks(FileOf(n)))
                && FreeFrom(bitmap[..], first) == old(FreeFrom(bitmap[..], first)) - 2
    {
      hide *;
      ghost var f, d, used := FileOf(n), disk[..], bitmap[..];
      GoodIs(n);
      EmptyIs(f, d);
      var prev := new Node();
      var free := GetFreeBlock();
      UnusedInside(used, d, free);
      StillBacks(d, used, d, bitmap[..]);
      LimitIs();
      var added, pb := AddBlock(n, prev, free);
      disk[free] := Zeros();
      GoodIs(n);
      if added == 0 {
        CreatedOk(f, d, used, first, free, pb, FileOf(n), disk[..], bitmap[..]);
      } else {
        DiskIs(d, disk[..], free);
        EmptyIs(f, disk[..]);
      }
    }

    /** `crear_nuevo_nodo`: the first deleted node becomes an empty file (`kind` 1) or a
        directory (`kind` 2).  The file system is in order afterwards exactly when a new file
        found two free blocks. */
    method Create(parent: nat, kind: nat) returns (r: int, ghost slot: nat)
      requires Valid() && kind in {1, 2} && first <= bitmap.Length
      requires kind == 1 && (exists i :: 0 <= i < |nodes| && nodes[i].state == 0) ==> FreeFrom(bitmap[..], first) >= 1
      modifies nodes, disk, bitmap
      ensures r == EDQUOT <==> forall i :: 0 <= i < |nodes| ==> old(nodes[i].state) != 0
      ensures r == EDQUOT ==>
              Valid() && TableOf(nodes) == old(TableOf(nodes)) && Files() == old(Files())
              && bitmap[..] == old(bitmap[..])
      ensures r != EDQUOT ==>
                && r == 0 && slot < |nodes| && old(nodes[slot].state) == 0
                && (forall i :: 0 <= i < slot ==> old(nodes[i].state) != 0)
                && TableOf(nodes) == old(TableOf(nodes))[slot := Entry(kind, parent)]
                && (Valid() <==> kind == 2 || old(FreeFrom(bitmap[..], first)) >= 2)
      ensures r != EDQUOT && Valid() ==>
                && Files() == (if kind == 1 then old(Files())[slot := []] else old(Files()))
                && first <= bitmap.Length
                && FreeFrom(bitmap[..], first) == old(FreeFrom(bitmap[..], first)) - if kind == 1 then 2 else 0
    {
      hide *;
      var i := 0;
      while i < |nodes| && nodes[i].state != 0
        invariant i <= |nodes| && forall j :: 0 <= j < i ==> nodes[j].state != 0
      {
        i := i + 1;
      }
      LimitIs();
      if i == |nodes| {
        return EDQUOT, 0;
      }
      Occupy(i, parent, kind);
      r, slot := 0, i;
    }

    /** The deleted node `i` becomes an empty file or a directory. */
    method Occupy(i: nat, parent: nat, kind: nat)
      requires Valid() && kind in {1, 2} && first <= bitmap.Length && i < |nodes| && nodes[i].state == 0
      requires kind == 1 ==> FreeFrom(bitmap[..], first) >= 1
      modifies nodes, disk, bitmap
      ensures TableOf(nodes) == old(TableOf(nodes))[i := Entry(kind, parent)]
      ensures Valid() <==> kind == 2 || old(FreeFrom(bitmap[..], first)) >= 2
      ensures Valid() ==>
                && Files() == (if kind == 1 then old(Files())[i := []] else old(Files()))
                && FreeFrom(bitmap[..], first) == old(FreeFrom(bitmap[..], first)) - if kind == 1 then 2 else 0
    {
      hide *;
      ghost var t, fs, d, used := TableOf(nodes), FilesOf(nodes), disk[..], bitmap[..];
      ValidIs();
      SystemFacts(t, fs, d, used, first, i);
      var n := nodes[i];
      GoodIs(n);
      n.fileSize, n.parent, n.state := 0, parent, kind;
      n.data, n.ptrs := [], [];
      GoodIs(n);
      if kind == 1 {
        AddFirst(n);
        GoodIs(n);
        if FreeFrom(used, first) >= 2 {
          SystemPut(t, fs, d, used, first, i, Entry(kind, parent), FileOf(n), disk[..], bitmap[..]);
        } else {
          NoBlocks(TableOf(nodes), FilesOf(nodes), disk[..], bitmap[..], first, i);
        }
      } else {
        SystemDrop(t, fs, d, used, first, i, Entry(kind, parent), FileOf(n), used);
      }
      Updated(t, TableOf(nodes), i, Entry(kind, parent));
      Updated(fs, FilesOf(nodes), i, FileOf(n));
      ValidIs();
    }

    /** `borrar_contenido`: which blocks are marked as unused. */
    method DeleteContents(n: Node)
      requires Good(n) && n.fileSize > 0
      modifies bitmap
      ensures forall b :: 0 <= b < bitmap.Length ==> (bitmap[b] <==> old(bitmap[..])[b] && !Returned(FileOf(n), b))
    {
      hide *;
      ghost var f, d, used := FileOf(n), disk[..], bitmap[..];
      GoodIs(n);
      Counts(f, d, used, first);
      ReachIs();
      var reach := POINTERS * BLOCK;
      // the size is passed as an int, and C's division truncates
      var size: int := if n.fileSize < HALF then n.fileSize else n.fileSize - 0x1_0000_0000;
      var pointerBlocks := if size >= 0 then size / reach else -(-size / reach);
      var rest := size - pointerBlocks * reach;
      var dataBlocks := if rest > 0 then (rest + BLOCK - 1) / BLOCK else 0;
      ClearedNone(f, used);
      var i := 0;
      while i < pointerBlocks
        invariant 0 <= i && (i <= pointerBlocks || i == 0)
        invariant Cleared(f, used, bitmap[..], i * POINTERS, i)
      {
        PointersAt(f, d, used, first, i);
        ClearBlocks(n, used, i, POINTERS);
        ClearPointers(f, used, bitmap[..], (i + 1) * POINTERS, i);
        bitmap[n.indirect[i]] := false;
        i := i + 1;
      }
      PointersAt(f, d, used, first, i);
      ClearBlocks(n, used, i, dataBlocks);
      ghost var now := bitmap[..];
      if f.size < HALF && rest > 0 {
        ClearPointers(f, used, now, i * POINTERS + dataBlocks, i);
      }
      bitmap[n.indirect[i]] := false;
      if f.size < HALF {
        ClearedAll(f, used, now, bitmap[..]);
      } else {
        ClearedNot(f, used, now);
        ClearedFirst(f, used, bitmap[..]);
      }
    }

    /** The inner loops of `borrar_contenido`: the first `count` blocks of a pointer block. */
    method ClearBlocks(n: Node, ghost used: seq<bool>, i: nat, count: nat)
      requires FileOk(FileOf(n), disk[..], used, first) && count <= POINTERS
      requires Cleared(FileOf(n), used, bitmap[..], i * POINTERS, i)
      requires i <= |FileOf(n).ptrs| && i * POINTERS + count <= |FileOf(n).data|
      modifies bitmap
      ensures Cleared(FileOf(n), used, bitmap[..], i * POINTERS + count, i)
    {
      hide *;
      ghost var f, d := FileOf(n), disk[..];
      GoodIs(n);
      PointersAt(f, d, used, first, i);
      var pointers := n.indirect[i];
      for j := 0 to count
        invariant Cleared(f, used, bitmap[..], i * POINTERS + j, i)
      {
        BlockAt(f, d, used, first, i, j);
        ClearData(f, used, bitmap[..], i * POINTERS + j, i);
        bitmap[Pointer(disk[pointers], j)] := false;
      }
    }

    /** `borrar_archivo`: the node is deleted, with its bytes if it is a file. */
    method DeleteFile(i: int) returns (r: int)
      requires Valid() && -1 <= i < |nodes| && (i >= 0 ==> nodes[i].state != 0)
      modifies nodes`state, nodes`fileSize, nodes`data, nodes`ptrs, bitmap
      ensures Valid()
      ensures r == if i == -1 then -1 else 0
      ensures i == -1 ==>
              Files() == old(Files()) && TableOf(nodes) == old(TableOf(nodes))
              && bitmap[..] == old(bitmap[..])
      ensures i != -1 ==>
                && TableOf(nodes) == Deleted(old(TableOf(nodes)), i) && Files() == old(Files()) - {i}
                && Shrunk(old(TableOf(nodes)), old(FilesOf(nodes)), old(bitmap[..]), TableOf(nodes), FilesOf(nodes),
                   bitmap[..])
    {
      hide *;
      if i == -1 {
        return -1;
      }
      ghost var t, fs, d, used := TableOf(nodes), FilesOf(nodes), disk[..], bitmap[..];
      ValidIs();
      SystemFacts(t, fs, d, used, first, i);
      var n := nodes[i];
      GoodIs(n);
      if n.state != 2 && n.fileSize != 0 {
        FileIs(i);
        DeleteContents(n);
      }
      n.state := 0;
      n.fileSize := 0;
      n.data, n.ptrs := [], [];
      GoodIs(n);
      NothingReturned(fs[i]);
      ShrunkByOne(t, fs, used, i, FileOf(n), bitmap[..]);
      forall b | first <= b < |used| && used[b] && b !in Own(t, fs, i) ensures bitmap[..][b] {
        if !bitmap[..][b] {
          ReturnedOwn(t, fs, d, used, first, i, b);
        }
      }
      SystemDrop(t, fs, d, used, first, i, t[i].(state := 0), FileOf(n), bitmap[..]);
      DeletedIs(t, i);
      Updated(t, TableOf(nodes), i, t[i].(state := 0));
      Updated(fs, FilesOf(nodes), i, FileOf(n));
      ValidIs();
      r := 0;
    }

    /** `borrar_directorio`: exactly the node and the live nodes below it are deleted, their
        blocks and no others are given back, and the other files stay as they are. */
    method RemoveDirectory(i: nat)
      requires Valid() && i < |nodes| && nodes[i].state != 0
      modifies nodes`state, nodes`fileSize, nodes`data, nodes`ptrs, bitmap
      ensures Valid()
      ensures Removed(old(TableOf(nodes)), i, TableOf(nodes))
      ensures Files() == map j | j in old(Files()) && j != i && !Below(old(TableOf(nodes)), i, j) :: old(Files())[j]
      ensures Shrunk(old(TableOf(nodes)), old(FilesOf(nodes)), old(bitmap[..]), TableOf(nodes), FilesOf(nodes),
              bitmap[..])
      decreases LiveCount(TableOf(nodes)), 2
    {
      hide *;
      ghost var t, fs, used, m := TableOf(nodes), FilesOf(nodes), bitmap[..], Files();
      FilesLive();
      var _ := DeleteFile(i);
      RemovingStarts(t, fs, used, m, i, FilesOf(nodes), bitmap[..]);
      InScanIs(i, t, fs, used, m, 0);
      RemoveChildren(i, t, fs, used, m);
      InScanIs(i, t, fs, used, m, |nodes|);
      RemovingEnds(t, fs, used, m, i, TableOf(nodes), FilesOf(nodes), bitmap[..], Files(), |nodes|);
    }

    /** The scan of `borrar_directorio`. */
    method RemoveChildren(i: nat, ghost t: seq<Entry>, ghost fs: seq<File>, ghost used: seq<bool>,
                          ghost m: map<nat, seq<byte>>)
      requires InScan(i, t, fs, used, m, 0)
      modifies nodes`state, nodes`fileSize, nodes`data, nodes`ptrs, bitmap
      ensures InScan(i, t, fs, used, m, |nodes|)
      decreases LiveCount(t), 1
    {
      hide *;
      var c := 0;
      while c < |nodes|
        invariant c <= |nodes| && InScan(i, t, fs, used, m, c)
      {
        RemoveChild(i, c, t, fs, used, m);
        c := c + 1;
      }
    }

    /** A round of `borrar_directorio`: node `c` goes if it is a live child of the target. */
    method RemoveChild(i: nat, c: nat, ghost t: seq<Entry>, ghost fs: seq<File>, ghost used: seq<bool>,
                       ghost m: map<nat, seq<byte>>)
      requires c < |nodes| && InScan(i, t, fs, used, m, c)
      modifies nodes`state, nodes`fileSize, nodes`data, nodes`ptrs, bitmap
      ensures InScan(i, t, fs, used, m, c + 1)
      decreases LiveCount(t), 0
    {
      hide *;
      ghost var r, gs, u, kept := TableOf(nodes), FilesOf(nodes), bitmap[..], Files();
      InScanIs(i, t, fs, used, m, c);
      RemovingFalls(t, fs, used, m, i, r, gs, u, kept, c);
      ChildIs(r, i, c);
      FilesLive();
      if nodes[c].state != 0 && nodes[c].parent == i + 2 {
        if nodes[c].state == 1 {
          var _ := DeleteFile(c);
          RemovingFile(t, fs, used, m, i, r, gs, u, kept, c, FilesOf(nodes), bitmap[..]);
        } else {
          RemoveDirectory(c);
          RemovingDirectory(t, fs, used, m, i, r, gs, u, kept, c, TableOf(nodes), FilesOf(nodes), bitmap[..]);
        }
      } else {
        RemovingSkips(t, fs, used, m, i, r, gs, u, kept, c);
      }
      InScanIs(i, t, fs, used, m, c + 1);
    }

    /** The scan for the children of node `i` has reached node `c`. */
    ghost predicate InScan(i: nat, t: seq<Entry>, fs: seq<File>, used: seq<bool>, m: map<nat, seq<byte>>, c: nat)
      reads nodes, disk, bitmap
    {
      Valid() && Removing(t, fs, used, m, i, TableOf(nodes), FilesOf(nodes), bitmap[..], Files(), c)
    }

    lemma InScanIs(i: nat, t: seq<Entry>, fs: seq<File>, used: seq<bool>, m: map<nat, seq<byte>>, c: nat)
      ensures InScan(i, t, fs, used, m, c) <==>
              Valid() && Removing(t, fs, used, m, i, TableOf(nodes), FilesOf(nodes), bitmap[..], Files(), c)
    {
      hide Valid, Removing, Files;
    }

    lemma FilesLive()
      requires Valid()
      ensures forall j :: j in Files() ==> j < |nodes| && nodes[j].state == 1
    {
      StoredAll(TableOf(nodes), FilesOf(nodes), disk[..], bitmap[..], first);
    }

    lemma ValidIs()
      ensures Valid() <==> Distinct(nodes) && SystemOk(TableOf(nodes), FilesOf(nodes), disk[..], bitmap[..], first)
      ensures Files() == Stored(TableOf(nodes), FilesOf(nodes), disk[..])
      ensures Distinct(nodes) ==> forall i, j :: 0 <= i < j < |nodes| ==> nodes[i] != nodes[j]
    {
    }
  }

  lemma LimitIs()
    ensures BLOCK == 4096 && INDIRECT == 1000 && POINTERS == 1024 && LIMIT == 4194304000 && HALF == 0x8000_0000
            && EFBIG == 27 && ENOSPC == 28 && EDQUOT == 122
  {
  }

  lemma OffsetIs(off: nat)
    ensures off / (BLOCK * POINTERS) == off / BLOCK / POINTERS
            && off % (BLOCK * POINTERS) / BLOCK == off / BLOCK % POINTERS
    ensures off == off / BLOCK * BLOCK + off % BLOCK
  {
  }

  lemma Aligned(off: nat)
    ensures off % BLOCK == 0 ==> (off + BLOCK) % BLOCK == 0
  {
  }

  lemma ReachIs()
    ensures BLOCK == 4096 && POINTERS == 1024 && HALF == 0x8000_0000
  {
  }

  lemma EnospcIs()
    ensures ENOSPC > 1
  {
  }

  lemma PositionIs(size: nat, n: nat)
    requires size == n * BLOCK
    ensures size / BLOCK == n && (size == HALF ==> n % POINTERS == 0)
  {
  }

  // ---- the walk of `leer_archivo` ----

  /** All but `tam` of the bytes have been read. */
  ghost predicate Copied(want: seq<byte>, buffer: seq<byte>, tam: int) {
    0 <= tam && |buffer| + tam == |want| && buffer == want[..|buffer|]
  }

  /** The other `tam` bytes are what is read `off` bytes after the start of the file's k-th
      block, which the walk has reached. */
  ghost predicate Seeking(f: File, disk: Disk, want: seq<byte>, buffer: seq<byte>, tam: int, k: nat, off: int)
    requires Linked(f, disk) && |f.data| == DataBlocks(f.size)
  {
    var at := k * BLOCK;
    && 0 <= tam && 0 <= off && |buffer| + tam == |want| && at + off < f.size && at + off + tam <= f.size
    && Mapped(f, disk, at + off, tam) && want[|buffer|..] == BytesRead(f, disk, at + off, tam)
  }

  lemma AvailableIs(f: File, offset: nat, size: nat)
    ensures Available(f, offset, size) == if f.size <= offset then 0
            else if f.size <= offset + size then f.size - offset else size
  {
  }

  lemma NothingRead(f: File, disk: Disk, at: nat)
    requires Linked(f, disk) && |f.data| == DataBlocks(f.size) && Mapped(f, disk, at, 0)
    ensures BytesRead(f, disk, at, 0) == []
  {
  }

  lemma StartsReading(f: File, disk: Disk, offset: nat, tam: nat)
    requires Linked(f, disk) && |f.data| == DataBlocks(f.size) && offset < f.size && offset + tam <= f.size
             && Mapped(f, disk, offset, tam)
    ensures Copied(BytesRead(f, disk, offset, tam), [], tam)
    ensures Seeking(f, disk, BytesRead(f, disk, offset, tam), [], tam, 0, offset)
  {
    hide BytesRead, Mapped;
  }

  lemma Skips(f: File, disk: Disk, want: seq<byte>, buffer: seq<byte>, tam: int, k: nat, off: int)
    requires Linked(f, disk) && |f.data| == DataBlocks(f.size)
    requires Seeking(f, disk, want, buffer, tam, k, off) && off >= BLOCK * POINTERS
    ensures Seeking(f, disk, want, buffer, tam, k + POINTERS, off - BLOCK * POINTERS)
  {
    hide BytesRead, Mapped;
    assert k * BLOCK + off == (k + POINTERS) * BLOCK + (off - BLOCK * POINTERS);
  }

  lemma SkipsOne(f: File, disk: Disk, want: seq<byte>, buffer: seq<byte>, tam: int, k: nat, off: int)
    requires Linked(f, disk) && |f.data| == DataBlocks(f.size)
    requires Seeking(f, disk, want, buffer, tam, k, off) && off >= BLOCK
    ensures Seeking(f, disk, want, buffer, tam, k + 1, off - BLOCK)
  {
    hide BytesRead, Mapped;
    assert k * BLOCK + off == (k + 1) * BLOCK + (off - BLOCK);
  }

  lemma EndsAt(i: nat)
    ensures i * POINTERS + POINTERS == (i + 1) * POINTERS
  {
  }

  lemma SeekingIs(f: File, disk: Disk, want: seq<byte>, buffer: seq<byte>, tam: int, k: nat, off: int)
    requires Linked(f, disk) && |f.data| == DataBlocks(f.size)
    requires Seeking(f, disk, want, buffer, tam, k, off)
    ensures var at := k * BLOCK + off;
            && 0 <= tam && 0 <= off && at < f.size && at + tam <= f.size && Mapped(f, disk, at, tam)
            && |buffer| + tam == |want| && want[|buffer|..] == BytesRead(f, disk, at, tam)
  {
    hide BytesRead, Mapped;
  }

  lemma IsSeeking(f: File, disk: Disk, want: seq<byte>, buffer: seq<byte>, tam: nat, k: nat)
    requires Linked(f, disk) && |f.data| == DataBlocks(f.size) && |buffer| + tam == |want|
    requires var at := (k + 1) * BLOCK;
             && at < f.size && at + tam <= f.size && Mapped(f, disk, at, tam)
             && want[|buffer|..] == BytesRead(f, disk, at, tam)
    ensures Seeking(f, disk, want, buffer, tam, k + 1, 0)
  {
    hide BytesRead, Mapped;
  }

  lemma CopiedMore(want: seq<byte>, buffer: seq<byte>, tam: int, more: seq<byte>, rest: seq<byte>)
    requires Copied(want, buffer, tam) && want[|buffer|..] == more + rest
    ensures Copied(want, buffer + more, tam - |more|) && want[|buffer + more|..] == rest
  {
    assert want == buffer + want[|buffer|..];
    assert want == buffer + more + rest;
  }

  /** What a round that reads needs and leaves. */
  lemma Reads(f: File, disk: Disk, want: seq<byte>, buffer: seq<byte>, tam: int, k: nat, off: nat, count: int)
    requires Linked(f, disk) && |f.data| == DataBlocks(f.size) && Copied(want, buffer, tam)
    requires Seeking(f, disk, want, buffer, tam, k, off) && off < BLOCK && k < |f.data|
    requires count == if tam < BLOCK then tam else BLOCK
    ensures DiskOk(disk) && 0 <= count <= BLOCK && f.data[k] < |disk|
    ensures off + count > BLOCK ==> f.data[k] + 1 < |disk|
    ensures var more := FromBlock(disk, f.data[k], off, count);
            && Copied(want, buffer + more, tam - count)
            && (tam > count ==> Seeking(f, disk, want, buffer + more, tam - count, k + 1, 0))
  {
    SeekingIs(f, disk, want, buffer, tam, k, off);
    FoundInside(f, disk, k, off);
    hide *;
    BlockIs();
    if tam == 0 {
      CopiedMore(want, buffer, tam, FromBlock(disk, f.data[k], off, 0), []);
    } else {
      BytesReadIs(f, disk, k * BLOCK + off, k, off, tam);
      ReadsSome(f, disk, want, buffer, tam, k, off, count, FromBlock(disk, f.data[k], off, count));
    }
  }

  lemma ReadsSome(f: File, disk: Disk, want: seq<byte>, buffer: seq<byte>, tam: nat, k: nat, off: nat, count: int,
                  more: seq<byte>)
    requires Linked(f, disk) && |f.data| == DataBlocks(f.size) && Copied(want, buffer, tam) && |more| == count
    requires count == (if tam < BLOCK then tam else BLOCK) && k * BLOCK + off + tam <= f.size
    requires want[|buffer|..] == more + if tam <= BLOCK then []
             else Contents(f, disk)[(k + 1) * BLOCK..(k + 1) * BLOCK + tam - BLOCK]
    ensures Copied(want, buffer + more, tam - count)
    ensures tam > count ==> Seeking(f, disk, want, buffer + more, tam - count, k + 1, 0)
  {
    hide *;
    BlockIs();
    if tam <= BLOCK {
      CopiedMore(want, buffer, tam, more, []);
    } else {
      ReadsOn(f, disk, want, buffer, tam, k, more);
    }
  }

  lemma ReadsOn(f: File, disk: Disk, want: seq<byte>, buffer: seq<byte>, tam: nat, k: nat, more: seq<byte>)
    requires Linked(f, disk) && |f.data| == DataBlocks(f.size) && Copied(want, buffer, tam) && |more| == BLOCK < tam
    requires var next := (k + 1) * BLOCK;
             next + tam - BLOCK <= f.size && want[|buffer|..] == more + Contents(f, disk)[next..next + tam - BLOCK]
    ensures Copied(want, buffer + more, tam - BLOCK)
    ensures Seeking(f, disk, want, buffer + more, tam - BLOCK, k + 1, 0)
  {
    hide *;
    BlockIs();
    var next := (k + 1) * BLOCK;
    NextBlock(k);
    ReadInPlace(f, disk, next, tam - BLOCK);
    CopiedMore(want, buffer, tam, more, Contents(f, disk)[next..next + tam - BLOCK]);
    IsSeeking(f, disk, want, buffer + more, tam - BLOCK, k);
  }

  lemma NextBlock(k: nat)
    ensures (k + 1) * BLOCK % BLOCK == 0
  {
  }

  lemma FoundInside(f: File, disk: Disk, k: nat, off: nat)
    requires Linked(f, disk) && k < |f.data| && off < BLOCK
    ensures DiskOk(disk) && f.data[k] < |disk| && FromBlock(disk, f.data[k], off, 0) == []
  {
  }

  lemma AllCopied(f: File, disk: Disk, want: seq<byte>, buffer: seq<byte>, tam: int, off: int)
    requires Linked(f, disk) && |f.data| == DataBlocks(f.size) && f.size <= (INDIRECT - 1) * POINTERS * BLOCK
    requires Copied(want, buffer, tam) && (tam == 0 || Seeking(f, disk, want, buffer, tam, INDIRECT * POINTERS, off))
    ensures |buffer| == |want| && buffer == want
  {
    hide BytesRead, Mapped, Linked, DataBlocks;
  }
}
