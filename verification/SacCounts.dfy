/** What becomes of the blocks of deleted files: how many are free again, and how many are lost. */
module SacCounts {
  import opened Bytes
  import opened Sequences
  import opened SacTree
  import opened SacFiles
  import opened SacState

  /** The blocks that stay marked for ever when a file of this size is deleted: both of those
      of an empty file, and all but one of those of a file of 2^31 bytes. */
  function LostOn(size: nat): (n: nat)
    ensures n <= BlocksFor(size)
  {
    if size == 0 then BlocksFor(size) else if size < HALF then 0 else BlocksFor(size) - 1
  }

  /** The blocks of the first `n` files. */
  ghost function Held(files: map<nat, seq<byte>>, n: nat): nat {
    if n == 0 then 0 else Held(files, n - 1) + if n - 1 in files then BlocksFor(|files[n - 1]|) else 0
  }

  /** The blocks lost with those of the first `n` files that are gone. */
  ghost function Lost(files: map<nat, seq<byte>>, left: map<nat, seq<byte>>, n: nat): nat {
    if n == 0 then 0 else
      Lost(files, left, n - 1) + if n - 1 in files && n - 1 !in left then LostOn(|files[n - 1]|) else 0
  }

  lemma {:induction false} LostNone(m: map<nat, seq<byte>>, left: map<nat, seq<byte>>, n: nat)
    requires m.Keys <= left.Keys
    ensures Lost(m, left, n) == 0
  {
    if n > 0 {
      LostNone(m, left, n - 1);
    }
  }

  lemma {:induction false} HeldPut(m: map<nat, seq<byte>>, i: nat, c: seq<byte>, n: nat)
    ensures Held(m[i := c], n) == Held(m, n) + if i >= n then 0 else BlocksFor(|c|) - if i in m then BlocksFor(|m[i]|)
            else 0
  {
    hide BlocksFor;
    if n > 0 {
      HeldPut(m, i, c, n - 1);
    }
  }

  lemma EmptyHolds()
    ensures BlocksFor(0) == 2
  {
  }

  /** The blocks that `borrar_contenido` gives back. */
  ghost function Back(f: File): seq<nat> {
    if f.size == 0 then [] else if f.size < HALF then Blocks(f) else f.ptrs[..if |f.ptrs| > 0 then 1 else 0]
  }

  lemma BackIs(f: File, disk: Disk, used: seq<bool>, first: nat)
    requires FileOk(f, disk, used, first) && first > 0
    ensures |Back(f)| == BlocksFor(f.size) - LostOn(f.size) && Distinct(Back(f))
    ensures forall b :: b in Back(f) ==> b in Blocks(f) && first <= b < |used| && used[b]
    ensures forall b: nat :: first <= b ==> (b in Back(f) <==> Returned(f, b))
  {
    GoodFacts(f, disk, used, first);
    BlocksForIs(f, disk);
    assert Blocks(f)[|f.data|] == f.ptrs[0];
    hide Linked, DataBlocks, PointerBlocks, FileOk;
  }

  /** The blocks given back when `r` is left of the first `n` nodes of the table `t`. */
  ghost function AllBack(t: seq<Entry>, fs: seq<File>, r: seq<Entry>, n: nat): seq<nat>
    requires n <= |t| == |fs| == |r|
  {
    if n == 0 then [] else
      AllBack(t, fs, r, n - 1) + if t[n - 1].state == 1 && r[n - 1].state == 0 then Back(fs[n - 1]) else []
  }

  ghost predicate ReturnedBelow(t: seq<Entry>, fs: seq<File>, r: seq<Entry>, n: nat, b: nat)
    requires n <= |t| == |fs| == |r|
  {
    exists i :: 0 <= i < n && t[i].state == 1 && r[i].state == 0 && Returned(fs[i], b)
  }

  /** They are in the data area, used, each given back once, and belong to the first `n`. */
  ghost predicate BackOk(t: seq<Entry>, fs: seq<File>, used: seq<bool>, first: nat, r: seq<Entry>, n: nat)
    requires n <= |t| == |fs| == |r|
  {
    && Distinct(AllBack(t, fs, r, n))
    && (forall b :: b in AllBack(t, fs, r, n) ==> first <= b < |used| && used[b])
    && (forall b :: b in AllBack(t, fs, r, n) ==> exists i :: 0 <= i < n && t[i].state == 1 && b in Blocks(fs[i]))
    && (forall b: nat :: first <= b ==> (b in AllBack(t, fs, r, n) <==> ReturnedBelow(t, fs, r, n, b)))
  }

  lemma {:induction false} AllBackIs(t: seq<Entry>, fs: seq<File>, disk: Disk, used: seq<bool>, first: nat,
                                     r: seq<Entry>, n: nat)
    requires SystemOk(t, fs, disk, used, first) && |r| == |t| == |fs| && n <= |t|
    ensures BackOk(t, fs, used, first, r, n)
  {
    hide *;
    if n == 0 {
      NoneBack(t, fs, used, first, r);
    } else {
      AllBackIs(t, fs, disk, used, first, r, n - 1);
      FileAt(t, fs, disk, used, first, n - 1);
      if t[n - 1].state == 1 && r[n - 1].state == 0 {
        BackIs(fs[n - 1], disk, used, first);
        BackMore(t, fs, used, first, r, n - 1, fs[n - 1]);
      } else {
        BackSame(t, fs, used, first, r, n);
      }
    }
  }

  lemma NoneBack(t: seq<Entry>, fs: seq<File>, used: seq<bool>, first: nat, r: seq<Entry>)
    requires |t| == |fs| == |r|
    ensures BackOk(t, fs, used, first, r, 0)
  {
  }

  lemma FileAt(t: seq<Entry>, fs: seq<File>, disk: Disk, used: seq<bool>, first: nat, i: nat)
    requires SystemOk(t, fs, disk, used, first) && i < |t|
    ensures |fs| == |t| && first > 0
    ensures t[i].state == 1 ==> FileOk(fs[i], disk, used, first)
    ensures t[i].state == 1 ==> forall j :: 0 <= j < i && t[j].state == 1 ==> Apart(fs[j], fs[i])
  {
  }

  lemma BackSame(t: seq<Entry>, fs: seq<File>, used: seq<bool>, first: nat, r: seq<Entry>, n: nat)
    requires 0 < n <= |t| == |fs| == |r| && BackOk(t, fs, used, first, r, n - 1)
    requires !(t[n - 1].state == 1 && r[n - 1].state == 0)
    ensures BackOk(t, fs, used, first, r, n)
  {
    hide Back, Returned, Blocks, Distinct;
    assert AllBack(t, fs, r, n) == AllBack(t, fs, r, n - 1);
  }

  lemma BackMore(t: seq<Entry>, fs: seq<File>, used: seq<bool>, first: nat, r: seq<Entry>, i: nat, f: File)
    requires i < |t| == |fs| == |r| && BackOk(t, fs, used, first, r, i) && f == fs[i]
    requires t[i].state == 1 && r[i].state == 0 && Distinct(Back(f))
    requires forall b :: b in Back(f) ==> b in Blocks(f) && first <= b < |used| && used[b]
    requires forall b: nat :: first <= b ==> (b in Back(f) <==> Returned(f, b))
    requires forall j :: 0 <= j < i && t[j].state == 1 ==> Apart(fs[j], f)
    ensures BackOk(t, fs, used, first, r, i + 1)
  {
    hide Back, Returned, Blocks, Distinct;
    var was, more := AllBack(t, fs, r, i), Back(f);
    DistinctMore(was, more);
    assert AllBack(t, fs, r, i + 1) == was + more;
    forall b | b in was + more ensures exists j :: 0 <= j < i + 1 && t[j].state == 1 && b in Blocks(fs[j]) {
      assert b in was || b in Blocks(fs[i]);
    }
    forall b: nat | first <= b ensures b in was + more <==> ReturnedBelow(t, fs, r, i + 1, b) {
      if b in was {
        assert ReturnedBelow(t, fs, r, i, b);
      }
      if b in more {
        assert Returned(fs[i], b);
      }
    }
  }

  lemma DistinctMore(u: seq<nat>, v: seq<nat>)
    requires Distinct(u) && Distinct(v) && forall b :: b in u ==> b !in v
    ensures Distinct(u + v)
  {
    var w := u + v;
    forall i, j | 0 <= i < j < |w| ensures w[i] != w[j] {
      if i < |u| <= j {
        assert w[i] in u && w[j] in v;
      }
    }
  }

  // ---- counting ----

  /** Marking blocks as unused makes as many more free. */
  lemma {:induction false} FreedCount(u: seq<bool>, v: seq<bool>, first: nat, bs: seq<nat>)
    requires first <= |u| == |v| && Distinct(bs) && forall b :: b in bs ==> first <= b < |u| && u[b]
    requires forall b: nat :: first <= b < |u| ==> (v[b] <==> u[b] && b !in bs)
    ensures FreeFrom(v, first) == FreeFrom(u, first) + |bs|
    decreases |bs|
  {
    if bs == [] {
      SameFree(u, v, first);
    } else {
      var n := |bs| - 1;
      var b, rest := bs[n], bs[..n];
      assert bs == rest + [b] && b in bs && b !in rest && forall x :: x in rest ==> x in bs;
      TakeFree(v, first, b);
      FreedCount(u, v[b := true], first, rest);
    }
  }

  /** What is held is still held, or given back, or lost. */
  lemma {:induction false} HeldIs(t: seq<Entry>, fs: seq<File>, disk: Disk, used: seq<bool>, first: nat, r: seq<Entry>,
                                  m: map<nat, seq<byte>>, left: map<nat, seq<byte>>, n: nat)
    requires SystemOk(t, fs, disk, used, first) && |r| == |t| && n <= |t|
    requires m == Stored(t, fs, disk) && forall j: nat :: j < |t| ==> (j in left <==> j in m && r[j].state != 0)
    requires forall j: nat :: j in left && j < |t| ==> j in m && left[j] == m[j]
    ensures Held(m, n) == Held(left, n) + |AllBack(t, fs, r, n)| + Lost(m, left, n)
  {
    hide *;
    HeldNone(t, fs, disk, used, first, r, m, left);
    if n > 0 {
      HeldIs(t, fs, disk, used, first, r, m, left, n - 1);
      HeldAt(t, fs, disk, used, first, n - 1);
      HeldNext(t, fs, r, m, left, n - 1);
      if t[n - 1].state == 1 {
        BackIs(fs[n - 1], disk, used, first);
      }
    }
  }

  lemma HeldNone(t: seq<Entry>, fs: seq<File>, disk: Disk, used: seq<bool>, first: nat, r: seq<Entry>,
                 m: map<nat, seq<byte>>, left: map<nat, seq<byte>>)
    requires SystemOk(t, fs, disk, used, first) && |r| == |t|
    ensures |fs| == |t| && Held(m, 0) == Held(left, 0) == |AllBack(t, fs, r, 0)| == Lost(m, left, 0) == 0
  {
  }

  lemma HeldNext(t: seq<Entry>, fs: seq<File>, r: seq<Entry>, m: map<nat, seq<byte>>, left: map<nat, seq<byte>>, k: nat)
    requires k < |t| == |fs| == |r|
    ensures Held(m, k + 1) == Held(m, k) + if k in m then BlocksFor(|m[k]|) else 0
    ensures Held(left, k + 1) == Held(left, k) + if k in left then BlocksFor(|left[k]|) else 0
    ensures Lost(m, left, k + 1) == Lost(m, left, k) + if k in m && k !in left then LostOn(|m[k]|) else 0
    ensures |AllBack(t, fs, r, k + 1)| ==
            |AllBack(t, fs, r, k)| + if t[k].state == 1 && r[k].state == 0 then |Back(fs[k])| else 0
  {
  }

  lemma HeldAt(t: seq<Entry>, fs: seq<File>, disk: Disk, used: seq<bool>, first: nat, i: nat)
    requires SystemOk(t, fs, disk, used, first) && i < |t|
    ensures first > 0 && |fs| == |t| && (i in Stored(t, fs, disk) <==> t[i].state == 1)
    ensures t[i].state == 1 ==> FileOk(fs[i], disk, used, first) && |Stored(t, fs, disk)[i]| == fs[i].size
  {
    StoredAll(t, fs, disk, used, first);
  }

  /** After deletions what was free or held is free, held or lost. */
  lemma DeletionsCounted(t: seq<Entry>, fs: seq<File>, disk: Disk, used: seq<bool>, first: nat, r: seq<Entry>,
                         gs: seq<File>, used': seq<bool>)
    requires SystemOk(t, fs, disk, used, first) && Shrunk(t, fs, used, r, gs, used')
             && SystemOk(r, gs, disk, used', first)
    ensures first <= |used| == |used'|
    ensures var m, left := Stored(t, fs, disk), Stored(r, gs, disk);
            FreeFrom(used, first) + Held(m, |t|) == FreeFrom(used', first) + Held(left, |t|) + Lost(m, left, |t|)
  {
    AllBackIs(t, fs, disk, used, first, r, |t|);
    StillStored(t, fs, disk, used, first, r, gs, used');
    HeldIs(t, fs, disk, used, first, r, Stored(t, fs, disk), Stored(r, gs, disk), |t|);
    BackCleared(t, fs, used, first, r, used');
    FreedCount(used, used', first, AllBack(t, fs, r, |t|));
  }

  lemma StillStored(t: seq<Entry>, fs: seq<File>, disk: Disk, used: seq<bool>, first: nat, r: seq<Entry>, gs: seq<File>,
                    used': seq<bool>)
    requires SystemOk(t, fs, disk, used, first) && Shrunk(t, fs, used, r, gs, used')
             && SystemOk(r, gs, disk, used', first)
    ensures var m, left := Stored(t, fs, disk), Stored(r, gs, disk);
            && (forall j: nat :: j < |t| ==> (j in left <==> j in m && r[j].state != 0))
            && forall j: nat :: j in left && j < |t| ==> j in m && left[j] == m[j]
  {
    StoredAll(t, fs, disk, used, first);
    StoredAll(r, gs, disk, used', first);
    hide SystemOk, Stored, GivenBack, Contents, FileOk;
  }

  lemma BackCleared(t: seq<Entry>, fs: seq<File>, used: seq<bool>, first: nat, r: seq<Entry>, used': seq<bool>)
    requires |t| == |fs| == |r| && GivenBack(t, fs, used, r, used') && BackOk(t, fs, used, first, r, |t|)
    ensures |used'| == |used| && forall b: nat :: first <= b < |used| ==>
            (used'[b] <==> used[b] && b !in AllBack(t, fs, r, |t|))
  {
    forall b: nat | first <= b < |used| ensures used'[b] <==> used[b] && b !in AllBack(t, fs, r, |t|) {
      assert ReturnedBelow(t, fs, r, |t|, b) <==> ReturnedBetween(t, fs, r, b);
    }
  }
}
