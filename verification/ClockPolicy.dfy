/** The modified-clock victim choice of the MUSE pager, on plain values.

    Pages are seen in the order in which `lista_de_segmentos` concatenates the page
    tables; a page shows its (P, U, M) bits.  Two kinds of sweep alternate: one that looks
    for (U,M) = (0,0) and changes nothing, and one that looks for (0,1) and clears the U bit
    of every present page that it passes. */
module ClockPolicy {

  datatype Bits = Bits(present: bool, used: bool, modified: bool)

  /** First position at or after `from` whose page is present with U = 0 and the given M,
      or |bits| when there is none. */
  function Scan(bits: seq<Bits>, from: nat, m: bool): (k: nat)
    requires from <= |bits|
    ensures from <= k <= |bits|
    ensures k < |bits| ==> bits[k].present && !bits[k].used && bits[k].modified == m
    ensures forall i :: from <= i < k ==> !(bits[i].present && !bits[i].used && bits[i].modified == m)
    decreases |bits| - from
  {
    if from == |bits| then from
    else if bits[from].present && !bits[from].used && bits[from].modified == m then from
    else Scan(bits, from + 1, m)
  }

  lemma ScanIs(bits: seq<Bits>, from: nat, m: bool, k: nat)
    requires from <= k <= |bits|
    requires forall i :: from <= i < k ==> !(bits[i].present && !bits[i].used && bits[i].modified == m)
    requires k < |bits| ==> bits[k].present && !bits[k].used && bits[k].modified == m
    ensures Scan(bits, from, m) == k
  {
  }

  /** The bits after a second-kind sweep has passed the first `k` pages. */
  function Cleared(bits: seq<Bits>, k: nat): (r: seq<Bits>)
    requires k <= |bits|
    ensures |r| == |bits|
  {
    seq(|bits|, i requires 0 <= i < |bits| =>
      if i < k && bits[i].present then bits[i].(used := false) else bits[i])
  }

  /** The page taken, how many pages of the order had passed a U-clearing sweep by then, and
      how many sweeps were started. */
  datatype Choice = Choice(victim: nat, passed: nat, sweeps: nat)

  /** The whole search from clock position `start`: a partial first sweep, then at most
      three full ones. */
  function Choose(bits: seq<Bits>, start: nat): (c: Choice)
    requires start <= |bits|
    ensures c.victim <= |bits| && c.passed <= |bits|
  {
    var a := Scan(bits, start, false);
    if a < |bits| then Choice(a, 0, 1) else
    var b := Scan(bits, 0, true);
    if b < |bits| then Choice(b, b, 2) else
    var all := Cleared(bits, |bits|);
    var c := Scan(all, 0, false);
    if c < |bits| then Choice(c, |bits|, 3) else
    Choice(Scan(all, 0, true), |bits|, 4)
  }

  /** What the n-th sweep works on: the bits, where it starts and which M it looks for. */
  function SweepBits(bits: seq<Bits>, n: nat): (r: seq<Bits>)
    ensures |r| == |bits|
  {
    if n < 2 then bits else Cleared(bits, |bits|)
  }

  function SweepFrom(start: nat, n: nat): nat {
    if n == 0 then start else 0
  }

  lemma SweepFromIs(start: nat, n: nat)
    ensures SweepFrom(start, n) == if n == 0 then start else 0
  {
  }

  /** No sweep before the n-th found a page. */
  predicate Missed(bits: seq<Bits>, start: nat, n: nat)
    requires start <= |bits| && n <= 4
  {
    && (n > 0 ==> Scan(bits, start, false) == |bits|)
    && (n > 1 ==> Scan(bits, 0, true) == |bits|)
    && (n > 2 ==> Scan(Cleared(bits, |bits|), 0, false) == |bits|)
    && (n > 3 ==> Scan(Cleared(bits, |bits|), 0, true) == |bits|)
  }

  lemma ChooseBySweep(bits: seq<Bits>, start: nat, n: nat)
    requires start <= |bits| && n < 4 && Missed(bits, start, n)
    ensures var k := Scan(SweepBits(bits, n), SweepFrom(start, n), n % 2 == 1);
            if k == |bits| then Missed(bits, start, n + 1)
            else Choose(bits, start) == Choice(k, if n == 0 then 0 else if n == 1 then k else |bits|, n + 1)
  {
  }

  lemma MissedAll(bits: seq<Bits>, start: nat)
    requires start <= |bits| && Missed(bits, start, 4)
    ensures Choose(bits, start).victim == |bits|
  {
  }

  ghost predicate SomePresent(bits: seq<Bits>) {
    exists i :: 0 <= i < |bits| && bits[i].present
  }

  /** The search ends within the partial sweep and three full ones exactly when some page is
      present.  The page taken is present and its U bit is 0 when it is taken. */
  lemma ChooseSucceeds(bits: seq<Bits>, start: nat)
    requires start <= |bits|
    ensures Choose(bits, start).victim < |bits| <==> SomePresent(bits)
    ensures SomePresent(bits) ==>
              var c := Choose(bits, start);
              var after := Cleared(bits, c.passed);
              1 <= c.sweeps <= 4 && bits[c.victim].present && !after[c.victim].used
  {
    var all := Cleared(bits, |bits|);
    if i :| 0 <= i < |bits| && bits[i].present {
      assert all[i].present && !all[i].used;
    }
  }

  predicate Idle(b: Bits) { b.present && !b.used && !b.modified }

  predicate IdleDirty(b: Bits) { b.present && !b.used && b.modified }

  predicate Clean(b: Bits) { b.present && !b.modified }

  ghost predicate IsFirst(bits: seq<Bits>, from: nat, v: nat, pick: Bits -> bool) {
    from <= v < |bits| && pick(bits[v]) && forall i :: from <= i < v ==> !pick(bits[i])
  }

  /** Page `v` is the first unused clean page from the hand on; failing that the first unused
      modified page of all; failing both the first clean page of all, used or not; and when
      every present page is modified the first present one. */
  ghost predicate IsChosen(bits: seq<Bits>, start: nat, v: nat) {
    if exists i :: start <= i < |bits| && Idle(bits[i]) then IsFirst(bits, start, v, Idle)
    else if exists i :: 0 <= i < |bits| && IdleDirty(bits[i]) then IsFirst(bits, 0, v, IdleDirty)
    else if exists i :: 0 <= i < |bits| && Clean(bits[i]) then IsFirst(bits, 0, v, Clean)
    else IsFirst(bits, 0, v, (b: Bits) => b.present)
  }

  /** Which page is taken, without mentioning the sweeps. */
  lemma ChooseByClass(bits: seq<Bits>, start: nat)
    requires start <= |bits| && SomePresent(bits)
    ensures IsChosen(bits, start, Choose(bits, start).victim)
  {
    ChooseSucceeds(bits, start);
    var all := Cleared(bits, |bits|);
    if i :| start <= i < |bits| && Idle(bits[i]) {
    } else if i :| 0 <= i < |bits| && IdleDirty(bits[i]) {
    } else if i :| 0 <= i < |bits| && Clean(bits[i]) {
      assert Idle(all[i]);
      assert forall j :: 0 <= j < |bits| && Clean(bits[j]) ==> Idle(all[j]);
    } else {
      assert forall j :: 0 <= j < |bits| && bits[j].present ==> IdleDirty(all[j]);
    }
  }

  /** No other page has that description. */
  lemma ChosenIff(bits: seq<Bits>, start: nat, v: nat)
    requires start <= |bits| && SomePresent(bits)
    ensures IsChosen(bits, start, v) <==> v == Choose(bits, start).victim
  {
    ChooseByClass(bits, start);
    hide Choose, Scan;
    var w := Choose(bits, start).victim;
    if IsChosen(bits, start, v) && v != w {
      assert IsChosen(bits, start, w);
      if exists i :: start <= i < |bits| && Idle(bits[i]) {
        FirstUnique(bits, start, v, w, Idle);
      } else if exists i :: 0 <= i < |bits| && IdleDirty(bits[i]) {
        FirstUnique(bits, 0, v, w, IdleDirty);
      } else if exists i :: 0 <= i < |bits| && Clean(bits[i]) {
        FirstUnique(bits, 0, v, w, Clean);
      } else {
        FirstUnique(bits, 0, v, w, (b: Bits) => b.present);
      }
    }
  }

  /** The U bit of page `i` once the victim is taken: as it was when an unused clean page comes
      from the hand on; else cleared up to the first unused modified page; and cleared
      everywhere when there is none.  Absent pages keep theirs. */
  ghost predicate UsedAfter(bits: seq<Bits>, start: nat, i: nat)
    requires i < |bits|
  {
    && bits[i].used
    && (!bits[i].present
        || (exists j :: start <= j < |bits| && Idle(bits[j]))
        || exists j :: 0 <= j < i && IdleDirty(bits[j]))
  }

  lemma UsedIs(bits: seq<Bits>, start: nat, i: nat)
    requires start <= |bits| && SomePresent(bits) && i < |bits|
    ensures Cleared(bits, Choose(bits, start).passed)[i].used <==> UsedAfter(bits, start, i)
  {
    var a, b := Scan(bits, start, false), Scan(bits, 0, true);
    if a < |bits| {
      assert Idle(bits[a]);
    } else if b < |bits| {
      assert IdleDirty(bits[b]);
    }
  }

  /** A page in use is not taken as long as there is an unused clean page from the hand on or
      an unused modified one. */
  lemma UsedIsSpared(bits: seq<Bits>, start: nat, v: nat)
    requires start <= |bits| && IsChosen(bits, start, v)
    requires (exists i :: start <= i < |bits| && Idle(bits[i])) || exists i :: 0 <= i < |bits| && IdleDirty(bits[i])
    ensures !bits[v].used
  {
  }

  lemma FirstUnique(bits: seq<Bits>, from: nat, v: nat, w: nat, pick: Bits -> bool)
    requires IsFirst(bits, from, v, pick) && IsFirst(bits, from, w, pick)
    ensures v == w
  {
  }
}
