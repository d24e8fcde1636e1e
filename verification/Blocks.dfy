/** The block list of a heap segment, as the packed in-band headers describe it. */
module Blocks {
  import opened Bytes
  import opened Sequences

  const META: nat := 5            // sizeof(struct HeapMetadata): a packed uint32_t and a bool

  datatype Header = Header(size: nat, free: bool)

  /** The packed bytes: the size, then the flag. */
  function EncodeHeader(h: Header): (s: seq<byte>)
    requires h.size < WORD
    ensures |s| == META
  {
    EncodeWord(h.size) + [if h.free then 1 else 0]
  }

  function DecodeHeader(s: seq<byte>): (h: Header)
    requires |s| == META
    ensures h.size < WORD
  {
    Header(DecodeWord(s[..4]), s[4] != 0)
  }

  lemma HeaderRoundTrip(h: Header)
    requires h.size < WORD
    ensures DecodeHeader(EncodeHeader(h)) == h
  {
    WordRoundTrip(h.size);
    assert EncodeHeader(h)[..4] == EncodeWord(h.size);
  }

  datatype Block = Block(addr: nat, size: nat, free: bool) {
    function Payload(): nat { addr + META }
    function End(): nat { addr + META + size }
  }

  /** The blocks follow one another from `from` to `to`. */
  predicate Tiles(b: seq<Block>, from: nat, to: nat) {
    if b == [] then from == to else b[0].addr == from && Tiles(b[1..], b[0].End(), to)
  }

  predicate HeaderIs(mem: seq<byte>, b: Block) {
    b.addr + META <= |mem| && DecodeHeader(mem[b.addr..b.addr + META]) == Header(b.size, b.free)
  }

  /** Walking the headers from address 0 by size + 5 visits exactly `b` and ends at the limit. */
  ghost predicate Tiled(mem: seq<byte>, b: seq<Block>) {
    Tiles(b, 0, |mem|) && forall i :: 0 <= i < |b| ==> HeaderIs(mem, b[i])
  }

  lemma {:induction false} TilesOrder(b: seq<Block>, from: nat, to: nat, i: nat)
    requires Tiles(b, from, to) && i < |b|
    ensures from <= b[i].addr && b[i].End() <= to
    ensures i == 0 ==> b[i].addr == from
    ensures i + 1 == |b| <==> b[i].End() == to
    ensures i + 1 < |b| ==> b[i + 1].addr == b[i].End()
    ensures forall j :: i < j < |b| ==> b[i].End() <= b[j].addr
    ensures Tiles(b[..i], from, b[i].addr) && Tiles(b[i + 1..], b[i].End(), to)
    decreases |b|
  {
    TilesBounds(b[1..], b[0].End(), to);
    if i > 0 {
      TilesOrder(b[1..], b[0].End(), to, i - 1);
      assert b[..i][1..] == b[1..][..i - 1];
      assert b[1..][i..] == b[i + 1..];
      forall j | i < j < |b| ensures b[i].End() <= b[j].addr {
        assert b[j] == b[1..][j - 1];
      }
    }
  }

  lemma EndIs(b: Block)
    ensures b.End() == b.addr + META + b.size && b.Payload() == b.addr + META
  {
  }

  lemma TiledAt(mem: seq<byte>, b: seq<Block>, i: nat)
    requires Tiled(mem, b) && i < |b|
    ensures HeaderIs(mem, b[i]) && b[i].addr + META + b[i].size == b[i].End() <= |mem|
    ensures forall j :: 0 <= j < i ==> b[j].addr + META <= b[i].addr
    ensures forall j :: i < j < |b| ==> b[i].End() <= b[j].addr
  {
    TilesOrder(b, 0, |mem|, i);
    forall j | 0 <= j < i ensures b[j].addr + META <= b[i].addr {
      TilesOrder(b, 0, |mem|, j);
    }
  }

  /** What a walk sees at block `i`. */
  lemma TiledStep(mem: seq<byte>, b: seq<Block>, i: nat)
    requires Tiled(mem, b) && i < |b|
    ensures b[0].addr == 0 && b[i].addr + META <= |mem|
    ensures DecodeHeader(mem[b[i].addr..b[i].addr + META]) == Header(b[i].size, b[i].free)
    ensures b[i].addr + META + b[i].size <= |mem|
    ensures i + 1 == |b| <==> b[i].addr + META + b[i].size == |mem|
    ensures i + 1 < |b| ==> b[i + 1].addr == b[i].addr + META + b[i].size
    ensures i + 1 == |b| <==> b[i].addr == b[|b| - 1].addr
  {
    TilesOrder(b, 0, |mem|, i);
    assert HeaderIs(mem, b[i]);
  }

  lemma {:induction false} TilesBounds(b: seq<Block>, from: nat, to: nat)
    requires Tiles(b, from, to)
    ensures from <= to && (b != [] ==> from + META <= to)
    ensures forall j :: 0 <= j < |b| ==> from <= b[j].addr && b[j].End() <= to
  {
    if b != [] {
      TilesBounds(b[1..], b[0].End(), to);
      forall j | 0 <= j < |b| ensures from <= b[j].addr && b[j].End() <= to {
        if j > 0 {
          assert b[j] == b[1..][j - 1];
        }
      }
    }
  }

  lemma {:induction false} TilesJoin(a: seq<Block>, b: seq<Block>, from: nat, mid: nat, to: nat)
    requires Tiles(a, from, mid) && Tiles(b, mid, to)
    ensures Tiles(a + b, from, to)
  {
    if a == [] {
      assert a + b == b;
    } else {
      TilesJoin(a[1..], b, a[0].End(), mid, to);
      assert (a + b)[1..] == a[1..] + b;
    }
  }

  /** Replacing a run of blocks by another that covers the same bytes. */
  lemma TilesReplace(b: seq<Block>, from: nat, to: nat, i: nat, j: nat, c: seq<Block>)
    requires Tiles(b, from, to) && i < j <= |b|
    requires Tiles(c, b[i].addr, b[j - 1].End())
    ensures Tiles(b[..i] + c + b[j..], from, to)
  {
    TilesOrder(b, from, to, i);
    TilesOrder(b, from, to, j - 1);
    TilesJoin(b[..i], c, from, b[i].addr, b[j - 1].End());
    TilesJoin(b[..i] + c, b[j..], from, b[j - 1].End(), to);
  }

  /** The bytes determine the blocks. */
  lemma {:induction false} TilingUnique(mem: seq<byte>, b: seq<Block>, c: seq<Block>, from: nat)
    requires Tiles(b, from, |mem|) && Tiles(c, from, |mem|)
    requires forall i :: 0 <= i < |b| ==> HeaderIs(mem, b[i])
    requires forall i :: 0 <= i < |c| ==> HeaderIs(mem, c[i])
    ensures b == c
    decreases |b|
  {
    TilesBounds(b, from, |mem|);
    TilesBounds(c, from, |mem|);
    if b != [] && c != [] {
      assert HeaderIs(mem, b[0]) && HeaderIs(mem, c[0]);
      assert b[0] == c[0];
      TilingUnique(mem, b[1..], c[1..], b[0].End());
    }
  }

  /** The bytes after `modificar_metadata(addr, seg, h.size, h.free)`. */
  function PutHeader(mem: seq<byte>, addr: nat, h: Header): (r: seq<byte>)
    requires h.size < WORD && addr + META <= |mem|
    ensures |r| == |mem|
  {
    Splice(mem, addr, EncodeHeader(h))
  }

  lemma PutThenGet(mem: seq<byte>, addr: nat, h: Header)
    requires h.size < WORD && addr + META <= |mem|
    ensures DecodeHeader(PutHeader(mem, addr, h)[addr..addr + META]) == h
    ensures forall a :: 0 <= a < |mem| && !(addr <= a < addr + META) ==> PutHeader(mem, addr, h)[a] == mem[a]
  {
    HeaderRoundTrip(h);
    assert PutHeader(mem, addr, h)[addr..addr + META] == EncodeHeader(h);
  }

  /** The header byte by byte: the size, lowest byte first, and then 1 for a free block. */
  lemma HeaderBytes(mem: seq<byte>, addr: nat, h: Header)
    requires h.size < WORD && addr + META <= |mem|
    ensures var m := PutHeader(mem, addr, h); WordAt(m, addr, h.size) && m[addr + 4] == if h.free then 1 else 0
  {
    var m := PutHeader(mem, addr, h);
    WordRoundTrip(h.size);
    assert m[addr..addr + 4] == EncodeWord(h.size);
    WordIs(m, addr, h.size);
  }

  lemma HeaderIsBytes(mem: seq<byte>, b: Block)
    requires b.addr + 5 <= |mem|
    ensures HeaderIs(mem, b) <==> WordAt(mem, b.addr, b.size) && (b.free <==> mem[b.addr + 4] != 0)
  {
    WordIs(mem, b.addr, b.size);
    assert mem[b.addr..b.addr + META][..4] == mem[b.addr..b.addr + 4];
  }

  lemma PutIs(mem: seq<byte>, b: Block)
    requires b.size < WORD && b.addr + META <= |mem|
    ensures HeaderIs(PutHeader(mem, b.addr, Header(b.size, b.free)), b)
  {
    PutThenGet(mem, b.addr, Header(b.size, b.free));
  }

  lemma PutElsewhere(mem: seq<byte>, at: nat, data: seq<byte>, b: Block)
    requires at + |data| <= |mem| && HeaderIs(mem, b)
    requires at + |data| <= b.addr || b.Payload() <= at
    ensures HeaderIs(Splice(mem, at, data), b)
  {
    assert Splice(mem, at, data)[b.addr..b.addr + META] == mem[b.addr..b.addr + META];
  }

  /** Writing inside a payload leaves every header alone. */
  lemma WriteInside(mem: seq<byte>, b: seq<Block>, i: nat, at: nat, data: seq<byte>)
    requires Tiled(mem, b) && i < |b| && b[i].Payload() <= at && at + |data| <= b[i].End()
    ensures at + |data| <= |mem| && Tiled(Splice(mem, at, data), b)
  {
    TilesOrder(b, 0, |mem|, i);
    forall j | 0 <= j < |b| ensures HeaderIs(Splice(mem, at, data), b[j]) {
      if j < i {
        TilesOrder(b, 0, |mem|, j);
      }
      PutElsewhere(mem, at, data, b[j]);
    }
  }

  /** Rewriting the header of block `i` so that it covers `c` instead of blocks i to j - 1. */
  lemma PutCovering(mem: seq<byte>, b: seq<Block>, i: nat, j: nat, c: Block)
    requires Tiled(mem, b) && i < j <= |b| && c.size < WORD
    requires c.addr == b[i].addr && c.End() == b[j - 1].End()
    ensures c.addr + META <= |mem|
    ensures Tiled(PutHeader(mem, c.addr, Header(c.size, c.free)), b[..i] + [c] + b[j..])
  {
    TilesOrder(b, 0, |mem|, i);
    TilesOrder(b, 0, |mem|, j - 1);
    assert Tiles([c], c.addr, c.End()) by { assert [c][1..] == []; }
    TilesReplace(b, 0, |mem|, i, j, [c]);
    var r := b[..i] + [c] + b[j..];
    forall k | 0 <= k < |r| ensures HeaderIs(PutHeader(mem, c.addr, Header(c.size, c.free)), r[k]) {
      PutCoveringAt(mem, b, i, j, c, k);
    }
    hide HeaderIs, PutHeader, Tiles;
  }

  lemma PutCoveringAt(mem: seq<byte>, b: seq<Block>, i: nat, j: nat, c: Block, k: nat)
    requires Tiled(mem, b) && i < j <= |b| && c.size < WORD && k <= i + |b| - j
    requires c.addr == b[i].addr && c.End() == b[j - 1].End()
    requires c.addr + META <= |mem|
    ensures HeaderIs(PutHeader(mem, c.addr, Header(c.size, c.free)), (b[..i] + [c] + b[j..])[k])
  {
    hide *;
    var r := b[..i] + [c] + b[j..];
    EndIs(c);
    if k == i {
      PutIs(mem, c);
    } else {
      var o := if k < i then k else j + (k - i - 1);
      assert r[k] == b[o];
      TiledAt(mem, b, o);
      TiledAt(mem, b, j - 1);
      EndIs(b[o]);
      PutIsSplice(mem, c.addr, Header(c.size, c.free));
      PutElsewhere(mem, c.addr, EncodeHeader(Header(c.size, c.free)), b[o]);
    }
  }

  lemma PutIsSplice(mem: seq<byte>, addr: nat, h: Header)
    requires h.size < WORD && addr + META <= |mem|
    ensures PutHeader(mem, addr, h) == Splice(mem, addr, EncodeHeader(h)) && |EncodeHeader(h)| == META
  {
  }

  /** Block `i`, taken, and what is left of it, free. */
  function Split(b: seq<Block>, i: nat, size: nat): (r: seq<Block>)
    requires i < |b| && size + META <= b[i].size
    ensures |r| == |b| + 1
  {
    b[..i] + [Block(b[i].addr, size, false), Block(b[i].addr + META + size, b[i].size - size - META, true)] + b[i + 1..]
  }

  lemma SplitTiles(b: seq<Block>, from: nat, to: nat, i: nat, size: nat)
    requires Tiles(b, from, to) && i < |b| && size + META <= b[i].size
    ensures Tiles(Split(b, i, size), from, to)
  {
    var c, d := Block(b[i].addr, size, false), Block(b[i].addr + META + size, b[i].size - size - META, true);
    assert Tiles([c, d], c.addr, d.End()) by { assert [c, d][1..] == [d] && [d][1..] == []; }
    TilesReplace(b, from, to, i, i + 1, [c, d]);
  }

  lemma SplitAt(b: seq<Block>, i: nat, size: nat, k: nat)
    requires i < |b| && size + META <= b[i].size && k <= |b|
    ensures |Split(b, i, size)| == |b| + 1
    ensures Split(b, i, size)[k] ==
            if k < i then b[k] else if k == i then Block(b[i].addr, size, false)
            else if k == i + 1 then Block(b[i].addr + META + size, b[i].size - size - META, true) else b[k - 1]
  {
  }

  lemma PutTwo(mem: seq<byte>, c: Block, d: Block)
    requires c.size < WORD && d.size < WORD && c.End() <= d.addr && d.addr + META <= |mem|
    ensures var w := PutHeader(PutHeader(mem, c.addr, Header(c.size, c.free)), d.addr, Header(d.size, d.free));
            HeaderIs(w, c) && HeaderIs(w, d)
  {
    hide HeaderIs, EncodeHeader, DecodeHeader;
    var m := PutHeader(mem, c.addr, Header(c.size, c.free));
    var w := PutHeader(m, d.addr, Header(d.size, d.free));
    PutIs(mem, c);
    PutIs(m, d);
    PutElsewhere(m, d.addr, EncodeHeader(Header(d.size, d.free)), c);
  }

  lemma PutTwoElsewhere(mem: seq<byte>, c: Block, d: Block, e: Block)
    requires c.size < WORD && d.size < WORD && c.End() <= d.addr && d.addr + META <= |mem|
    requires HeaderIs(mem, e) && (e.addr + META <= c.addr || d.addr + META <= e.addr)
    ensures HeaderIs(PutHeader(PutHeader(mem, c.addr, Header(c.size, c.free)), d.addr, Header(d.size, d.free)), e)
  {
    PutElsewhere(mem, c.addr, EncodeHeader(Header(c.size, c.free)), e);
    PutElsewhere(PutHeader(mem, c.addr, Header(c.size, c.free)), d.addr, EncodeHeader(Header(d.size, d.free)), e);
  }

  /** The two headers that an allocation writes split block `i`. */
  lemma PutSplit(mem: seq<byte>, b: seq<Block>, i: nat, size: nat)
    requires Tiled(mem, b) && i < |b| && size + META <= b[i].size && |mem| < WORD
    ensures b[i].addr + META + size + META <= |mem|
    ensures var m := PutHeader(mem, b[i].addr, Header(size, false));
            Tiled(PutHeader(m, b[i].addr + META + size, Header(b[i].size - size - META, true)), Split(b, i, size))
  {
    SplitRoom(mem, b, i, size);
    forall k | 0 <= k < |b| + 1
      ensures var m := PutHeader(mem, b[i].addr, Header(size, false));
              HeaderIs(PutHeader(m, b[i].addr + META + size, Header(b[i].size - size - META, true)),
                Split(b, i, size)[k])
    {
      PutSplitAt(mem, b, i, size, k);
    }
    SplitTiles(b, 0, |mem|, i, size);
    hide HeaderIs, Tiles, PutHeader, Split;
  }

  lemma SplitRoom(mem: seq<byte>, b: seq<Block>, i: nat, size: nat)
    requires Tiled(mem, b) && i < |b| && size + META <= b[i].size && |mem| < WORD
    ensures b[i].addr + META + size + META <= |mem| && b[i].size < WORD
  {
    TilesOrder(b, 0, |mem|, i);
  }

  lemma PutSplitAt(mem: seq<byte>, b: seq<Block>, i: nat, size: nat, k: nat)
    requires Tiled(mem, b) && i < |b| && size + META <= b[i].size && |mem| < WORD && k <= |b|
    requires b[i].addr + META + size + META <= |mem| && b[i].size < WORD
    ensures var m := PutHeader(mem, b[i].addr, Header(size, false));
            HeaderIs(PutHeader(m, b[i].addr + META + size, Header(b[i].size - size - META, true)), Split(b, i, size)[k])
  {
    hide *;
    TiledAt(mem, b, i);
    var c, d := Block(b[i].addr, size, false), Block(b[i].addr + META + size, b[i].size - size - META, true);
    EndIs(c);
    SplitAt(b, i, size, k);
    if k == i || k == i + 1 {
      PutTwo(mem, c, d);
    } else {
      var o := if k < i then k else k - 1;
      TiledAt(mem, b, o);
      PutTwoElsewhere(mem, c, d, b[o]);
    }
  }
}
