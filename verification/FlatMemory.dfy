/** A table of pages or disk blocks as one flat run of bytes: their concatenation. */
module FlatMemory {
  import opened Bytes
  import opened Sequences

  ghost predicate Backed<K>(table: seq<K>, contents: map<K, seq<byte>>, ps: nat) {
    forall i :: 0 <= i < |table| ==> table[i] in contents && |contents[table[i]]| == ps
  }

  ghost function Flat<K>(table: seq<K>, contents: map<K, seq<byte>>, ps: nat): (m: seq<byte>)
    requires Backed(table, contents, ps)
    ensures |m| == |table| * ps
  {
    if table == [] then [] else
    Flat(table[..|table| - 1], contents, ps) + contents[table[|table| - 1]]
  }

  /** Where a page's bytes begin. */
  function Start(page: nat, ps: nat): nat {
    page * ps
  }

  /** Page and offset of a logical address; what runs over the page's end is in the next. */
  lemma PageOf(addr: nat, k: nat, ps: nat, n: nat)
    requires ps > 0 && k > 0 && addr + k <= Start(n, ps)
    ensures var page, off := addr / ps, addr % ps;
            && 0 <= page < n && 0 <= off < ps && addr == Start(page, ps) + off
            && (off + k > ps ==> page + 1 < n && Start(page + 1, ps) == Start(page, ps) + ps)
  {
    var q, r := addr / ps, addr % ps;
    assert addr == q * ps + r;
    assert (q + 1) * ps == q * ps + ps;
    MulCancel(q, n, ps);
    if r + k > ps {
      MulCancel(q + 1, n, ps);
    }
  }

  lemma MulCancel(a: int, b: int, m: nat)
    requires a * m < b * m
    ensures a < b
  {
    if b <= a {
      MulMono(b, a, m);
    }
  }

  lemma PageIs(page: nat, off: nat, ps: nat)
    requires off < ps
    ensures (Start(page, ps) + off) / ps == page && (Start(page, ps) + off) % ps == off
  {
    var a := Start(page, ps) + off;
    assert a == a / ps * ps + a % ps;
    if a / ps < page {
      MulMono(a / ps + 1, page, ps);
    } else if a / ps > page {
      MulMono(page + 1, a / ps, ps);
    }
  }

  lemma MulMono(a: int, b: int, m: nat)
    requires a <= b
    ensures a * m <= b * m
  {
  }

  lemma FlatWhole<K>(table: seq<K>, contents: map<K, seq<byte>>, ps: nat, i: nat)
    requires Backed(table, contents, ps) && i < |table|
    ensures table[i] in contents && |contents[table[i]]| == ps && Start(i, ps) + ps <= |Flat(table, contents, ps)|
    ensures Flat(table, contents, ps)[Start(i, ps)..Start(i, ps) + ps] == contents[table[i]]
  {
    FlatPage(table, contents, ps, i, 0, ps);
    assert contents[table[i]][0..ps] == contents[table[i]];
  }

  /** Page `i` holds the bytes from `i * ps` on. */
  lemma {:induction false} FlatPage<K>(table: seq<K>, contents: map<K, seq<byte>>, ps: nat, i: nat, a: nat, b: nat)
    requires Backed(table, contents, ps) && i < |table| && a <= b <= ps
    ensures Start(i, ps) + b <= |Flat(table, contents, ps)|
    ensures Flat(table, contents, ps)[Start(i, ps) + a..Start(i, ps) + b] == contents[table[i]][a..b]
  {
    var n := |table| - 1;
    FlatSize(table, contents, ps);
    FlatSize(table[..n], contents, ps);
    hide Start;
    var front, last := Flat(table[..n], contents, ps), contents[table[n]];
    if i < n {
      FlatPage(table[..n], contents, ps, i, a, b);
      SliceFront(front, last, Start(i, ps) + a, Start(i, ps) + b);
    } else {
      SliceBack(front, last, a, b);
    }
  }

  lemma FlatSize<K>(table: seq<K>, contents: map<K, seq<byte>>, ps: nat)
    requires Backed(table, contents, ps)
    ensures |Flat(table, contents, ps)| == Start(|table|, ps)
  {
  }

  lemma StartZero(ps: nat)
    ensures Start(0, ps) == 0
  {
  }

  lemma StartNext(i: nat, ps: nat)
    ensures Start(i + 1, ps) == Start(i, ps) + ps
  {
  }

  lemma StartMono(a: nat, b: nat, ps: nat)
    requires a <= b
    ensures Start(a, ps) <= Start(b, ps)
  {
    MulMono(a, b, ps);
  }

  lemma StartOf(at: nat, ps: nat)
    requires ps > 0
    ensures at == Start(at / ps, ps) + at % ps
  {
  }

  lemma SliceFront(s: seq<byte>, t: seq<byte>, a: nat, b: nat)
    requires a <= b <= |s|
    ensures (s + t)[a..b] == s[a..b]
  {
  }

  lemma SliceBack(s: seq<byte>, t: seq<byte>, a: nat, b: nat)
    requires a <= b <= |t|
    ensures (s + t)[|s| + a..|s| + b] == t[a..b]
  {
  }

  lemma {:induction false} FlatSame<K>(table: seq<K>, c: map<K, seq<byte>>, d: map<K, seq<byte>>, ps: nat)
    requires Backed(table, c, ps)
    requires forall i :: 0 <= i < |table| ==> table[i] in d && d[table[i]] == c[table[i]]
    ensures Backed(table, d, ps) && Flat(table, d, ps) == Flat(table, c, ps)
  {
    if table != [] {
      FlatSame(table[..|table| - 1], c, d, ps);
    }
  }

  /** Writing into one page is writing at its place in the flat bytes. */
  lemma {:induction false} FlatWrite<K>(table: seq<K>, contents: map<K, seq<byte>>, ps: nat, i: nat, at: nat,
                                        data: seq<byte>)
    requires Backed(table, contents, ps) && i < |table| && at + |data| <= ps
    requires Distinct(table)
    ensures var d := contents[table[i] := Splice(contents[table[i]], at, data)];
            && Backed(table, d, ps) && Start(i, ps) + at + |data| <= |Flat(table, contents, ps)|
            && Flat(table, d, ps) == Splice(Flat(table, contents, ps), Start(i, ps) + at, data)
  {
    var d := contents[table[i] := Splice(contents[table[i]], at, data)];
    var n := |table| - 1;
    var front := table[..n];
    FlatSize(front, contents, ps);
    FlatSize(table, contents, ps);
    StartNext(n, ps);
    if i < n {
      StartMono(i + 1, n, ps);
      StartNext(i, ps);
    }
    hide Start;
    if i < n {
      FlatWrite(front, contents, ps, i, at, data);
      assert table[n] != table[i];
    } else {
      FlatSame(front, contents, d, ps);
    }
  }

  /** New pages only add bytes at the end. */
  lemma FlatGrow<K>(table: seq<K>, contents: map<K, seq<byte>>, ps: nat, p: K, d: map<K, seq<byte>>)
    requires Backed(table, contents, ps) && p !in table && p in d && |d[p]| == ps
    requires forall i :: 0 <= i < |table| ==> table[i] in d && d[table[i]] == contents[table[i]]
    ensures Backed(table + [p], d, ps) && Flat(table + [p], d, ps) == Flat(table, contents, ps) + d[p]
  {
    FlatSame(table, contents, d, ps);
    assert (table + [p])[..|table|] == table;
  }
}
