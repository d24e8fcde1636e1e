/** The node table of the SAC file system as a tree of parent links. */
module SacTree {

  const TABLE_START: nat := 2   // the block at which the node table starts

  /** state: 0 deleted, 1 file, 2 directory.  `parent` is a block number: that of a directory
      is its index in the table plus the block at which the table starts. */
  datatype Entry = Entry(state: nat, parent: nat)

  ghost predicate IsChild(t: seq<Entry>, i: nat, x: nat) {
    x < |t| && t[x].state != 0 && t[x].parent == i + TABLE_START
  }

  /** The live node `x` lies below `root`, at most `n` directories between them. */
  ghost predicate Under(t: seq<Entry>, root: nat, x: nat, n: nat)
    decreases n
  {
    && x < |t| && t[x].state != 0 && t[x].parent >= TABLE_START
    && var y := t[x].parent - TABLE_START;
       y == root || (n > 0 && y < |t| && t[y].state !in {0, 1} && Under(t, root, y, n - 1))
  }

  /** Reachable from `root` through the parent links of live nodes. */
  ghost predicate Below(t: seq<Entry>, root: nat, x: nat) {
    exists n :: Under(t, root, x, n)
  }

  function LiveCount(t: seq<Entry>): (n: nat)
    ensures n <= |t|
  {
    if t == [] then 0 else LiveCount(t[..|t| - 1]) + if t[|t| - 1].state != 0 then 1 else 0
  }

  function Deleted(t: seq<Entry>, i: nat): (r: seq<Entry>)
    requires i < |t|
    ensures |r| == |t|
  {
    t[i := t[i].(state := 0)]
  }

  lemma {:induction false} DeletedCount(t: seq<Entry>, i: nat)
    requires i < |t|
    ensures LiveCount(Deleted(t, i)) == LiveCount(t) - if t[i].state != 0 then 1 else 0
  {
    var n := |t| - 1;
    if i < n {
      DeletedCount(t[..n], i);
      assert Deleted(t, i)[..n] == Deleted(t[..n], i);
    } else {
      assert Deleted(t, i)[..n] == t[..n];
    }
  }

  /** Nodes have only been deleted. */
  ghost predicate Fewer(t: seq<Entry>, r: seq<Entry>) {
    |r| == |t| && forall x :: 0 <= x < |t| ==> r[x] == t[x] || r[x] == t[x].(state := 0)
  }

  lemma {:induction false} FewerCount(t: seq<Entry>, r: seq<Entry>)
    requires Fewer(t, r)
    ensures LiveCount(r) <= LiveCount(t)
  {
    if t != [] {
      FewerCount(t[..|t| - 1], r[..|t| - 1]);
    }
  }

  /** What is below a child of the root is below the root. */
  lemma {:induction false} UnderChild(t: seq<Entry>, r: seq<Entry>, root: nat, c: nat, x: nat, n: nat)
    requires Fewer(t, r) && IsChild(t, root, c) && t[c].state !in {0, 1} && Under(r, c, x, n)
    ensures Under(t, root, x, n + 1)
    decreases n
  {
    var y := r[x].parent - TABLE_START;
    if y == c {
      assert Under(t, root, c, n);
    } else {
      UnderChild(t, r, root, c, y, n - 1);
    }
  }

  /** Exactly the target and the live nodes below it are deleted. */
  ghost predicate Removed(t: seq<Entry>, root: nat, r: seq<Entry>) {
    && |r| == |t|
    && forall x :: 0 <= x < |t| ==> r[x] == if x == root || Below(t, root, x) then t[x].(state := 0) else t[x]
  }

  /** The state of `borrar_directorio` when its scan has reached node `c`. */
  ghost predicate Scanning(t: seq<Entry>, root: nat, r: seq<Entry>, c: nat) {
    && Fewer(t, r) && root < |t| && r[root].state == 0
    && (forall x :: 0 <= x < |t| && t[x].state != 0 && r[x].state == 0 ==> x == root || Below(t, root, x))
    && (forall x :: 0 <= x < c && x < |t| ==> !IsChild(r, root, x))
    && (forall x :: 0 <= x < |t| ==> !Orphan(t, root, r, x))
  }

  /** A live node whose directory has been deleted by an inner call. */
  ghost predicate Orphan(t: seq<Entry>, root: nat, r: seq<Entry>, x: nat)
    requires |r| == |t| && x < |t|
  {
    && r[x].state != 0 && t[x].parent >= TABLE_START
    && var y := t[x].parent - TABLE_START;
       y < |t| && y != root && t[y].state !in {0, 1} && r[y].state == 0
  }

  lemma ScanStarts(t: seq<Entry>, root: nat)
    requires root < |t|
    ensures Scanning(t, root, Deleted(t, root), 0)
  {
  }

  lemma {:induction false} ScanEnds(t: seq<Entry>, root: nat, r: seq<Entry>)
    requires Scanning(t, root, r, |t|)
    ensures Removed(t, root, r)
  {
    forall x | 0 <= x < |t| && Below(t, root, x) ensures r[x].state == 0 {
      var n :| Under(t, root, x, n);
      ScanReaches(t, root, r, x, n);
    }
    forall x | 0 <= x < |t| && x != root && !Below(t, root, x) ensures r[x] == t[x] {
      if t[x].state == 0 {
        assert r[x] == t[x];
      }
    }
  }

  lemma {:induction false} ScanReaches(t: seq<Entry>, root: nat, r: seq<Entry>, x: nat, n: nat)
    requires Scanning(t, root, r, |t|) && Under(t, root, x, n)
    ensures r[x].state == 0
    decreases n
  {
    var y := t[x].parent - TABLE_START;
    if y == root {
      assert !IsChild(r, root, x);
    } else {
      ScanReaches(t, root, r, y, n - 1);
      assert !Orphan(t, root, r, x);
    }
  }

  /** The scan passes a node that is not a live child of the target. */
  lemma ScanSkips(t: seq<Entry>, root: nat, r: seq<Entry>, c: nat)
    requires Scanning(t, root, r, c) && c < |t| && !IsChild(r, root, c)
    ensures Scanning(t, root, r, c + 1)
  {
  }

  /** The scan deletes a child that is a file. */
  lemma ScanFile(t: seq<Entry>, root: nat, r: seq<Entry>, c: nat)
    requires Scanning(t, root, r, c) && c < |t| && IsChild(r, root, c) && r[c].state == 1
    ensures Scanning(t, root, Deleted(r, c), c + 1)
  {
    var s := Deleted(r, c);
    assert Under(t, root, c, 0);
    forall x | 0 <= x < |t| ensures !Orphan(t, root, s, x) {
      assert !Orphan(t, root, r, x);
    }
    forall x | 0 <= x < c + 1 ensures !IsChild(s, root, x) {
      assert x < c ==> !IsChild(r, root, x);
    }
  }

  /** The scan removes a child that is a directory, with all that is below it. */
  lemma ScanDirectory(t: seq<Entry>, root: nat, r: seq<Entry>, c: nat, s: seq<Entry>)
    requires Scanning(t, root, r, c) && c < |t| && IsChild(r, root, c) && r[c].state != 1 && Removed(r, c, s)
    ensures Scanning(t, root, s, c + 1)
  {
    assert Under(t, root, c, 0);
    forall x | 0 <= x < |t| && t[x].state != 0 && s[x].state == 0 ensures x == root || Below(t, root, x) {
      if r[x].state != 0 && x != c {
        var n :| Under(r, c, x, n);
        UnderChild(t, r, root, c, x, n);
      }
    }
    forall x | 0 <= x < c + 1 ensures !IsChild(s, root, x) {
      assert x < c ==> !IsChild(r, root, x);
    }
    forall x | 0 <= x < |t| ensures !Orphan(t, root, s, x) {
      RemovedLeavesNoOrphan(t, root, r, c, s, x);
    }
  }

  lemma RemovedLeavesNoOrphan(t: seq<Entry>, root: nat, r: seq<Entry>, c: nat, s: seq<Entry>, x: nat)
    requires Fewer(t, r) && c < |t| && r[c].state !in {0, 1} && Removed(r, c, s) && x < |t| && !Orphan(t, root, r, x)
    ensures !Orphan(t, root, s, x)
  {
    if Orphan(t, root, s, x) {
      var y := t[x].parent - TABLE_START;
      if y == c {
        assert Under(r, c, x, 0);
      } else {
        assert Below(r, c, y);
        var n: nat :| Under(r, c, y, n);
        assert Under(r, c, x, n + 1);
      }
      assert Below(r, c, x);
    }
  }

  /** When no file has children, what is removed is everything reachable through the parent
      links of live nodes, whatever the nodes on the way are. */
  ghost predicate NoFileChildren(t: seq<Entry>) {
    forall x, y :: 0 <= x < |t| && 0 <= y < |t| && IsChild(t, y, x) ==> t[y].state != 1
  }

  ghost predicate Reached(t: seq<Entry>, root: nat, x: nat, n: nat)
    decreases n
  {
    && x < |t| && t[x].state != 0 && t[x].parent >= TABLE_START
    && var y := t[x].parent - TABLE_START;
       y == root || (n > 0 && y < |t| && t[y].state != 0 && Reached(t, root, y, n - 1))
  }

  lemma {:induction false} ReachedIsUnder(t: seq<Entry>, root: nat, x: nat, n: nat)
    requires NoFileChildren(t)
    ensures Reached(t, root, x, n) <==> Under(t, root, x, n)
    decreases n
  {
    if x < |t| && t[x].state != 0 && t[x].parent >= TABLE_START {
      var y := t[x].parent - TABLE_START;
      assert y < |t| ==> IsChild(t, y, x);
      if y != root && n > 0 {
        ReachedIsUnder(t, root, y, n - 1);
      }
    }
  }

  /** `crear_nuevo_nodo` writes parents relative to the start of the table, `borrar_directorio`
      reads them relative to block 2: with the table anywhere else, a child survives its
      directory. */
  lemma TableMustStartAtTwo(start: nat) returns (t: seq<Entry>)
    requires start != TABLE_START
    ensures |t| == 2 && t[0].state == 2 && t[1].state == 1 && t[1].parent == 0 + start
    ensures forall r :: Removed(t, 0, r) ==> r[1] == t[1]
  {
    t := [Entry(2, 0), Entry(1, start)];
    forall n: nat ensures !Under(t, 0, 1, n) {
    }
    assert !Below(t, 0, 1);
  }
}
