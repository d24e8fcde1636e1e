/** Sequences as lists, tables and bitmaps. */
module Sequences {

  function Concat<T>(ts: seq<seq<T>>): (r: seq<T>)
  {
    if ts == [] then [] else Concat(ts[..|ts| - 1]) + ts[|ts| - 1]
  }

  /** `u` lists the elements of `ps`, each once. */
  ghost predicate Enumerates<T>(u: seq<T>, ps: set<T>) {
    && (forall p :: p in ps ==> p in u)
    && (forall i :: 0 <= i < |u| ==> u[i] in ps)
    && (forall i, j :: 0 <= i < j < |u| ==> u[i] != u[j])
  }

  lemma EnumeratesInsert<T>(u: seq<T>, ps: set<T>, k: nat, x: T)
    requires Enumerates(u, ps) && k <= |u| && x !in ps
    ensures Enumerates(u[..k] + [x] + u[k..], ps + {x})
  {
    var r := u[..k] + [x] + u[k..];
    forall p | p in ps + {x} ensures p in r {
      if p == x {
        assert r[k] == x;
      } else {
        var i :| 0 <= i < |u| && u[i] == p;
        assert r[if i < k then i else i + 1] == p;
      }
    }
  }

  ghost function Elements<T>(u: seq<T>): set<T> {
    set t | t in u
  }

  predicate Distinct<T(==)>(u: seq<T>) {
    forall i, j :: 0 <= i < j < |u| ==> u[i] != u[j]
  }

  /** Where the elements of `ts[s]` are in `Concat(ts)`. */
  lemma {:induction false} ConcatSlice<T>(ts: seq<seq<T>>, s: nat)
    requires s < |ts|
    ensures var off := |Concat(ts[..s])|;
            && Concat(ts[..s + 1]) == Concat(ts[..s]) + ts[s]
            && off + |ts[s]| <= |Concat(ts)| && Concat(ts)[off..off + |ts[s]|] == ts[s]
            && (s + 1 == |ts| ==> off + |ts[s]| == |Concat(ts)|)
  {
    assert ts[..s + 1][..s] == ts[..s];
    if s + 1 == |ts| {
      assert ts[..s + 1] == ts;
    } else {
      var tt := ts[..|ts| - 1];
      ConcatSlice(tt, s);
      assert tt[..s] == ts[..s];
    }
  }

  lemma {:induction false} ConcatInsertEmpty<T>(ts: seq<seq<T>>, k: nat)
    requires k <= |ts|
    ensures Concat(ts[..k] + [[]] + ts[k..]) == Concat(ts)
    decreases |ts| - k
  {
    var r := ts[..k] + [[]] + ts[k..];
    if k == |ts| {
      assert r[..|ts|] == ts;
    } else {
      var tt := ts[..|ts| - 1];
      assert r[..|ts|] == tt[..k] + [[]] + tt[k..];
      ConcatInsertEmpty(tt, k);
    }
  }

  lemma {:induction false} ConcatAppend<T>(ts: seq<seq<T>>, s: nat, x: T) returns (k: nat)
    requires s < |ts|
    ensures k <= |Concat(ts)|
    ensures Concat(ts[s := ts[s] + [x]]) == Concat(ts)[..k] + [x] + Concat(ts)[k..]
  {
    var r := ts[s := ts[s] + [x]];
    var tt := ts[..|ts| - 1];
    if s == |ts| - 1 {
      assert r[..|ts| - 1] == tt;
      k := |Concat(ts)|;
    } else {
      k := ConcatAppend(tt, s, x);
      assert r[..|ts| - 1] == tt[s := tt[s] + [x]];
    }
  }

  function CountTrue(s: seq<bool>): (n: nat)
    ensures n <= |s|
  {
    if s == [] then 0 else CountTrue(s[..|s| - 1]) + if s[|s| - 1] then 1 else 0
  }

  /** The lowest set bit, or the length when there is none: the scans of
      `page_with_free_size` and `frame_swap_libre`. */
  function FirstTrue(s: seq<bool>, from: nat := 0): (k: nat)
    requires from <= |s|
    ensures from <= k <= |s|
    ensures k < |s| ==> s[k]
    ensures forall i :: from <= i < k ==> !s[i]
    decreases |s| - from
  {
    if from == |s| || s[from] then from else FirstTrue(s, from + 1)
  }

  lemma {:induction false} CountTrueZero(s: seq<bool>)
    ensures CountTrue(s) == 0 <==> FirstTrue(s) == |s|
  {
    if s != [] {
      var t := s[..|s| - 1];
      CountTrueZero(t);
      if FirstTrue(t) < |t| {
        assert s[FirstTrue(t)];
      }
      if FirstTrue(s) < |t| {
        assert t[FirstTrue(s)];
      }
    }
  }

  /** `s` with the bytes from `at` on replaced by `data`. */
  function Splice<T>(s: seq<T>, at: nat, data: seq<T>): (r: seq<T>)
    requires at + |data| <= |s|
    ensures |r| == |s|
    ensures forall i :: 0 <= i < |s| ==> r[i] == if at <= i < at + |data| then data[i - at] else s[i]
  {
    s[..at] + data + s[at + |data|..]
  }

  lemma SliceOfSlice<T>(s: seq<T>, a: nat, b: nat, i: nat, j: nat)
    requires a <= b <= |s| && i <= j && a + j <= b
    ensures s[a..b][i..j] == s[a + i..a + j]
  {
    var u, v := s[a..b][i..j], s[a + i..a + j];
    assert |u| == |v| && forall k :: 0 <= k < |u| ==> u[k] == v[k];
  }

  lemma Updated<T>(s: seq<T>, r: seq<T>, i: nat, x: T)
    requires i < |s| == |r| && r[i] == x && forall j :: 0 <= j < |s| && j != i ==> r[j] == s[j]
    ensures r == s[i := x]
  {
  }
}
