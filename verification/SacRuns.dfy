/** Whole runs of file system requests: what a file holds, and what becomes of the blocks. */
module SacRuns {
  import opened Bytes
  import opened SacTree
  import opened SacFiles
  import opened SacCounts
  import opened Sac

  /** What requests see of the file system: the table, the bytes of the live files, and how
      many blocks are free. */
  datatype State = State(table: seq<Entry>, files: map<nat, seq<byte>>, free: nat)

  /** `leaked`: a block was obtained that the file did not get. */
  datatype Event =
    | Created(slot: nat, kind: nat, parent: nat)
    | Appended(i: nat, bytes: seq<byte>, leaked: bool)
    | Deleted(i: nat)
    | Removed(i: nat)
    | Nothing

  ghost function StateOf(fs: Sac): State
    reads fs.nodes, fs.disk, fs.bitmap
  {
    State(TableOf(fs.nodes), fs.Files(), if fs.first <= fs.bitmap.Length then FreeFrom(fs.bitmap[..], fs.first) else 0)
  }

  /** The files are the live nodes that are files. */
  ghost predicate Good(s: State) {
    forall i: nat :: i in s.files <==> i < |s.table| && s.table[i].state == 1
  }

  lemma ValidIsGood(fs: Sac)
    requires fs.Valid()
    ensures Good(StateOf(fs))
  {
    fs.FilesLive();
    forall i: nat | i < |fs.nodes| && fs.nodes[i].state == 1 ensures i in fs.Files() {
      fs.FileIs(i);
    }
  }

  /** How a request changes the table and the files. */
  ghost predicate Changes(s: State, e: Event, r: State) {
    match e
    case Created(slot, kind, parent) =>
      && slot < |s.table| && s.table[slot].state == 0 && kind in {1, 2}
      && r.table == s.table[slot := Entry(kind, parent)]
      && r.files == if kind == 1 then s.files[slot := []] else s.files
    case Appended(i, bytes, _) =>
      i in s.files && r.table == s.table && r.files == s.files[i := s.files[i] + bytes]
    case Deleted(i) =>
      i < |s.table| && r.table == SacTree.Deleted(s.table, i) && r.files == s.files - {i}
    case Removed(i) =>
      && SacTree.Removed(s.table, i, r.table)
      && r.files == map j | j in s.files && j != i && !Below(s.table, i, j) :: s.files[j]
    case Nothing => r == s
  }

  /** The blocks that the request loses: those of deleted files that are not given back, and
      the one that an append obtained for nothing. */
  ghost function LostIn(s: State, e: Event, r: State): nat {
    Lost(s.files, r.files, |s.table|) + if e.Appended? && e.leaked then 1 else 0
  }

  /** Blocks are free, or a live file's, or lost. */
  ghost predicate Conserves(s: State, e: Event, r: State) {
    && |r.table| == |s.table|
    && s.free + Held(s.files, |s.table|) == r.free + Held(r.files, |r.table|) + LostIn(s, e, r)
  }

  ghost predicate Step(s: State, e: Event, r: State) {
    Good(s) && Good(r) && Changes(s, e, r) && Conserves(s, e, r)
  }

  /** The request deletes neither the file nor a directory above it. */
  ghost predicate Spares(s: State, e: Event, i: nat) {
    match e
    case Deleted(j) => j != i
    case Removed(j) => j != i && !Below(s.table, j, i)
    case _ => true
  }

  /** All that has been written to the file, in order. */
  function Written(es: seq<Event>, i: nat): seq<byte> {
    if es == [] then [] else
    var e := es[|es| - 1];
    Written(es[..|es| - 1], i) + if e.Appended? && e.i == i then e.bytes else []
  }

  lemma StepHolds(s: State, e: Event, r: State, i: nat)
    requires Step(s, e, r) && Spares(s, e, i) && i in s.files
    ensures i in r.files && r.files[i] == s.files[i] + if e.Appended? && e.i == i then e.bytes else []
  {
  }

  /** Over every run, a file that is not deleted holds what it held and what has been written
      to it since, in order, whatever happens to the other files and directories. */
  lemma {:induction false} HoldsWhatWasWritten(ss: seq<State>, es: seq<Event>, i: nat)
    requires |ss| == |es| + 1 && i in ss[0].files
    requires forall k :: 0 <= k < |es| ==> Step(ss[k], es[k], ss[k + 1]) && Spares(ss[k], es[k], i)
    ensures i in ss[|es|].files && ss[|es|].files[i] == ss[0].files[i] + Written(es, i)
    decreases |es|
  {
    hide Step, Spares;
    if es != [] {
      var n := |es| - 1;
      var st, et := ss[..n + 1], es[..n];
      forall k | 0 <= k < |et| ensures Step(st[k], et[k], st[k + 1]) && Spares(st[k], et[k], i) {
        assert Step(ss[k], es[k], ss[k + 1]) && Spares(ss[k], es[k], i);
      }
      HoldsWhatWasWritten(st, et, i);
      StepHolds(ss[n], es[n], ss[n + 1], i);
    }
  }

  /** The blocks lost in a run. */
  ghost function LostOver(ss: seq<State>, es: seq<Event>): nat
    requires |ss| == |es| + 1
  {
    if es == [] then 0 else
    var n := |es| - 1;
    LostOver(ss[..n + 1], es[..n]) + LostIn(ss[n], es[n], ss[n + 1])
  }

  /** Over every run, the free blocks, those of the live files and those lost on the way are as
      many as were free or the files' at the start. */
  lemma {:induction false} BlocksConserved(ss: seq<State>, es: seq<Event>)
    requires |ss| == |es| + 1 && forall k :: 0 <= k < |es| ==> Step(ss[k], es[k], ss[k + 1])
    ensures var s, r := ss[0], ss[|es|];
            && |r.table| == |s.table|
            && s.free + Held(s.files, |s.table|) == r.free + Held(r.files, |r.table|) + LostOver(ss, es)
    decreases |es|
  {
    if es != [] {
      var n := |es| - 1;
      var st, et := ss[..n + 1], es[..n];
      hide Good, Changes, LostIn;
      forall k | 0 <= k < |et| ensures Step(st[k], et[k], st[k + 1]) {
        assert Step(ss[k], es[k], ss[k + 1]);
      }
      BlocksConserved(st, et);
      assert Step(ss[n], es[n], ss[n + 1]);
    }
  }

  datatype Request =
    | Make(parent: nat, kind: nat)
    | Append(i: nat, bytes: seq<byte>)
    | Delete(i: nat)
    | RemoveAll(i: nat)

  /** What the file system answers as it should: a new directory, or a new file when two blocks
      are free, as long as there is a deleted node; an append from a block boundary or of less
      than a block, and not past 2^31 bytes; the deletion of a live node. */
  predicate Admissible(s: State, rq: Request) {
    match rq
    case Make(_, kind) => MayMake(s, kind) && exists i :: 0 <= i < |s.table| && s.table[i].state == 0
    case Append(i, bytes) =>
      && i in s.files && (|s.files[i]| % BLOCK == 0 || |bytes| < BLOCK)
      && |s.files[i]| + |bytes| <= HALF
    case Delete(i) => i < |s.table| && s.table[i].state != 0
    case RemoveAll(i) => i < |s.table| && s.table[i].state != 0
  }

  predicate MayMake(s: State, kind: nat) {
    kind == 2 || (kind == 1 && s.free >= 2)
  }

  /** What any other request gets. */
  function Refusal(s: State, rq: Request): int {
    if rq.Make? && MayMake(s, rq.kind) then EDQUOT else -1
  }

  /** The answer to a request and what has happened: just what was asked for when that is
      admissible, and nothing otherwise.  Of an append the bytes for which there is room. */
  ghost predicate Does(s: State, rq: Request, r: int, e: Event) {
    if !Admissible(s, rq) then e == Nothing && r == Refusal(s, rq) else
    match rq
    case Make(parent, kind) =>
      && r == 0 && e.Created? && e.parent == parent && e.kind == kind
      && e.slot < |s.table| && s.table[e.slot].state == 0 && forall i :: 0 <= i < e.slot ==> s.table[i].state != 0
    case Append(i, bytes) =>
      var size := |s.files[i]|;
      && r == Answer(size, |bytes|, s.free)
      && e == Appended(i, bytes[..Grown(size, |bytes|, s.free) - size], r == -1)
    case Delete(i) => r == 0 && e == Deleted(i)
    case RemoveAll(i) => r == 0 && e == Removed(i)
  }

  /** State and request determine the answer and the next state. */
  lemma RequestDetermines(s: State, rq: Request, n: int, e: Event, r: State, n': int, e': Event, r': State)
    requires Step(s, e, r) && Does(s, rq, n, e) && Step(s, e', r') && Does(s, rq, n', e')
    ensures n == n' && e == e' && r == r'
  {
    if e.Created? {
      assert e.slot == e'.slot;
    }
    if e.Removed? {
      assert r.table == r'.table;
    }
    hide Good, Held, Lost, Admissible, Refusal, Below;
  }

  /** So the states at the start and a list of requests determine the run. */
  lemma {:induction false} RunDetermined(ss: seq<State>, es: seq<Event>, rqs: seq<Request>, rs: seq<int>,
                                         ss': seq<State>, es': seq<Event>, rs': seq<int>)
    requires Runs(ss, es, rqs, rs) && Runs(ss', es', rqs, rs') && ss[0] == ss'[0]
    ensures rs == rs' && es == es' && ss == ss'
    decreases |rqs|
  {
    hide Step, Does;
    if rqs != [] {
      var n := |rqs| - 1;
      RunsLess(ss, es, rqs, rs);
      RunsLess(ss', es', rqs, rs');
      RunDetermined(ss[..n + 1], es[..n], rqs[..n], rs[..n], ss'[..n + 1], es'[..n], rs'[..n]);
      assert ss[n] == ss[..n + 1][n] && ss'[n] == ss'[..n + 1][n];
      RequestDetermines(ss[n], rqs[n], rs[n], es[n], ss[n + 1], rs'[n], es'[n], ss'[n + 1]);
      assert rs == rs[..n] + [rs[n]] && rs' == rs'[..n] + [rs'[n]];
      assert es == es[..n] + [es[n]] && es' == es'[..n] + [es'[n]];
      assert ss == ss[..n + 1] + [ss[n + 1]] && ss' == ss'[..n + 1] + [ss'[n + 1]];
    }
  }

  /** All that the requests want appended to the file, in order. */
  function Asked(rqs: seq<Request>, i: nat): seq<byte> {
    if rqs == [] then [] else
    var rq := rqs[|rqs| - 1];
    Asked(rqs[..|rqs| - 1], i) + if rq.Append? && rq.i == i then rq.bytes else []
  }

  /** Every append to the file returned its count. */
  predicate AllCounted(rqs: seq<Request>, rs: seq<int>, i: nat) {
    |rs| == |rqs| && forall k :: 0 <= k < |rqs| && rqs[k].Append? && rqs[k].i == i ==> rs[k] == |rqs[k].bytes|
  }

  lemma CountedWhole(s: State, rq: Request, r: int, e: Event, i: nat)
    requires Does(s, rq, r, e) && (rq.Append? && rq.i == i ==> r == |rq.bytes|)
    ensures (if e.Appended? && e.i == i then e.bytes else []) == if rq.Append? && rq.i == i then rq.bytes else []
  {
    hide Room, BlocksFor;
  }

  /** What has been written is then what was asked for. */
  lemma {:induction false} WrittenIsAsked(ss: seq<State>, es: seq<Event>, rqs: seq<Request>, rs: seq<int>, i: nat)
    requires Runs(ss, es, rqs, rs) && AllCounted(rqs, rs, i)
    ensures Written(es, i) == Asked(rqs, i)
    decreases |rqs|
  {
    hide Step, Does;
    if rqs != [] {
      var n := |rqs| - 1;
      RunsLess(ss, es, rqs, rs);
      WrittenIsAsked(ss[..n + 1], es[..n], rqs[..n], rs[..n], i);
      CountedWhole(ss[n], rqs[n], rs[n], es[n], i);
    }
  }

  lemma RunsLess(ss: seq<State>, es: seq<Event>, rqs: seq<Request>, rs: seq<int>)
    requires Runs(ss, es, rqs, rs) && rqs != []
    ensures var n := |rqs| - 1;
            && |ss| == n + 2 && |es| == |rs| == n + 1 && Runs(ss[..n + 1], es[..n], rqs[..n], rs[..n])
            && Step(ss[n], es[n], ss[n + 1]) && Does(ss[n], rqs[n], rs[n], es[n])
  {
    hide Step, Does;
    var n := |rqs| - 1;
    var st, et, qt, rt := ss[..n + 1], es[..n], rqs[..n], rs[..n];
    forall k | 0 <= k < n ensures Step(st[k], et[k], st[k + 1]) && Does(st[k], qt[k], rt[k], et[k]) {
      assert Step(ss[k], es[k], ss[k + 1]) && Does(ss[k], rqs[k], rs[k], es[k]);
    }
  }

  lemma FirstInside(fs: Sac)
    requires fs.Valid()
    ensures fs.first <= fs.bitmap.Length
  {
  }

  lemma CodesAre()
    ensures EDQUOT > 0 && BLOCK > 0 && HALF < LIMIT
    ensures forall f: File, n, free :: Outside(f, n, free) ==> f.size + n > HALF
  {
  }

  lemma StateIs(fs: Sac)
    requires fs.Valid()
    ensures fs.first <= fs.bitmap.Length && Good(StateOf(fs))
    ensures StateOf(fs) == State(TableOf(fs.nodes), fs.Files(), FreeFrom(fs.bitmap[..], fs.first))
  {
    ValidIsGood(fs);
    FirstInside(fs);
  }

  // ---- what each request does is a step ----

  lemma AdmissibleIs(s: State, rq: Request)
    ensures Admissible(s, rq) <==>
      match rq
      case Make(_, kind) =>
        && (kind == 2 || (kind == 1 && s.free >= 2))
        && exists i :: 0 <= i < |s.table| && s.table[i].state == 0
      case Append(i, bytes) =>
        && i in s.files && (|s.files[i]| % BLOCK == 0 || |bytes| < BLOCK)
        && |s.files[i]| + |bytes| <= HALF
      case Delete(i) => i < |s.table| && s.table[i].state != 0
      case RemoveAll(i) => i < |s.table| && s.table[i].state != 0
    ensures Refusal(s, rq) == if rq.Make? && (rq.kind == 2 || (rq.kind == 1 && s.free >= 2)) then EDQUOT else -1
  {
  }

  lemma NothingStep(s: State, rq: Request)
    requires Good(s) && !Admissible(s, rq)
    ensures Step(s, Nothing, s) && Does(s, rq, Refusal(s, rq), Nothing)
  {
    LostNone(s.files, s.files, |s.table|);
  }

  lemma CreatedStep(s: State, slot: nat, kind: nat, parent: nat, r: State)
    requires Good(s) && Good(r) && Admissible(s, Make(parent, kind))
    requires slot < |s.table| && s.table[slot].state == 0 && forall i :: 0 <= i < slot ==> s.table[i].state != 0
    requires r.table == s.table[slot := Entry(kind, parent)]
    requires r.files == if kind == 1 then s.files[slot := []] else s.files
    requires r.free == s.free - if kind == 1 then 2 else 0
    ensures Step(s, Created(slot, kind, parent), r) && Does(s, Make(parent, kind), 0, Created(slot, kind, parent))
  {
    LostNone(s.files, r.files, |s.table|);
    EmptyHolds();
    if kind == 1 {
      HeldPut(s.files, slot, [], |s.table|);
    }
  }

  lemma AppendedStep(s: State, i: nat, buf: seq<byte>, size: nat, n: int, r: State)
    requires Good(s) && Good(r) && Admissible(s, Append(i, buf)) && i in s.files && |s.files[i]| == size
    requires n == Answer(size, |buf|, s.free) && r.table == s.table
    requires r.files == s.files[i := s.files[i] + buf[..Grown(size, |buf|, s.free) - size]]
    requires s.free - r.free ==
             BlocksFor(Grown(size, |buf|, s.free)) - BlocksFor(size) + if n == -1 then 1 else 0
    ensures var e := Appended(i, buf[..Grown(size, |buf|, s.free) - size], n == -1);
            Step(s, e, r) && Does(s, Append(i, buf), n, e)
  {
    LostNone(s.files, r.files, |s.table|);
    HeldPut(s.files, i, r.files[i], |s.table|);
    hide Grown, Answer, BlocksFor, Held, Lost;
  }

  lemma DeletedStep(s: State, i: nat, r: State)
    requires Good(s) && Good(r) && Admissible(s, Delete(i))
    requires i < |s.table| && r.table == SacTree.Deleted(s.table, i) && r.files == s.files - {i}
    requires s.free + Held(s.files, |s.table|) == r.free + Held(r.files, |s.table|) + Lost(s.files, r.files, |s.table|)
    ensures Step(s, Deleted(i), r) && Does(s, Delete(i), 0, Deleted(i))
  {
    hide Good;
  }

  lemma RemovedStep(s: State, i: nat, r: State)
    requires Good(s) && Good(r) && Admissible(s, RemoveAll(i)) && SacTree.Removed(s.table, i, r.table)
    requires r.files == map j | j in s.files && j != i && !Below(s.table, i, j) :: s.files[j]
    requires s.free + Held(s.files, |s.table|) == r.free + Held(r.files, |s.table|) + Lost(s.files, r.files, |s.table|)
    ensures Step(s, Removed(i), r) && Does(s, RemoveAll(i), 0, Removed(i))
  {
    hide Good, Below;
  }

  /** One request, carried out when it is admissible and refused otherwise. */
  method Serve(fs: Sac, rq: Request) returns (r: int, ghost e: Event)
    requires fs.Valid()
    modifies fs.nodes, fs.disk, fs.bitmap
    ensures fs.Valid() && Step(old(StateOf(fs)), e, StateOf(fs)) && Does(old(StateOf(fs)), rq, r, e)
  {
    hide *;
    StateIs(fs);
    match rq {
      case Make(parent, kind) =>
        r, e := ServeMake(fs, parent, kind);
      case Append(i, bytes) =>
        r, e := ServeAppend(fs, i, bytes);
      case Delete(i) =>
        r, e := ServeDelete(fs, i);
      case RemoveAll(i) =>
        r, e := ServeRemove(fs, i);
    }
  }

  method ServeMake(fs: Sac, parent: nat, kind: nat) returns (r: int, ghost e: Event)
    requires fs.Valid()
    modifies fs.nodes, fs.disk, fs.bitmap
    ensures fs.Valid() && Step(old(StateOf(fs)), e, StateOf(fs)) && Does(old(StateOf(fs)), Make(parent, kind), r, e)
  {
    hide *;
    StateIs(fs);
    CodesAre();
    ghost var s := StateOf(fs);
    AdmissibleIs(s, Make(parent, kind));
    r, e := -1, Nothing;
    var free := fs.CountFree();
    if kind == 2 || (kind == 1 && free >= 2) {
      ghost var slot;
      r, slot := fs.Create(parent, kind);
      StateIs(fs);
      if r == 0 {
        e := Created(slot, kind, parent);
        CreatedStep(s, slot, kind, parent, StateOf(fs));
        return;
      }
    }
    NothingStep(s, Make(parent, kind));
  }

  method ServeAppend(fs: Sac, i: nat, bytes: seq<byte>) returns (r: int, ghost e: Event)
    requires fs.Valid()
    modifies fs.nodes, fs.disk, fs.bitmap
    ensures fs.Valid() && Step(old(StateOf(fs)), e, StateOf(fs)) && Does(old(StateOf(fs)), Append(i, bytes), r, e)
  {
    hide *;
    StateIs(fs);
    CodesAre();
    ghost var s := StateOf(fs);
    AdmissibleIs(s, Append(i, bytes));
    FileSizes(fs);
    if i < |fs.nodes| && fs.nodes[i].state == 1 {
      var at := fs.nodes[i].fileSize;
      if (at % BLOCK == 0 || |bytes| < BLOCK) && at + |bytes| <= HALF {
        fs.GoodIs(fs.nodes[i]);
        ghost var lost;
        r, lost := fs.WriteFile(i, bytes, at);
        StateIs(fs);
        AppendedStep(s, i, bytes, at, r, StateOf(fs));
        e := Appended(i, bytes[..Grown(at, |bytes|, s.free) - at], r == -1);
        return;
      }
    }
    r, e := -1, Nothing;
    NothingStep(s, Append(i, bytes));
  }

  method ServeDelete(fs: Sac, i: nat) returns (r: int, ghost e: Event)
    requires fs.Valid()
    modifies fs.nodes, fs.bitmap
    ensures fs.Valid() && Step(old(StateOf(fs)), e, StateOf(fs)) && Does(old(StateOf(fs)), Delete(i), r, e)
  {
    hide *;
    StateIs(fs);
    ghost var s, fl, u := StateOf(fs), FilesOf(fs.nodes), fs.bitmap[..];
    AdmissibleIs(s, Delete(i));
    if i < |fs.nodes| && fs.nodes[i].state != 0 {
      fs.ValidIs();
      r := fs.DeleteFile(i);
      e := Deleted(i);
      StateIs(fs);
      fs.ValidIs();
      DeletionsCounted(s.table, fl, fs.disk[..], u, fs.first, TableOf(fs.nodes), FilesOf(fs.nodes), fs.bitmap[..]);
      DeletedStep(s, i, StateOf(fs));
    } else {
      r, e := -1, Nothing;
      NothingStep(s, Delete(i));
    }
  }

  method ServeRemove(fs: Sac, i: nat) returns (r: int, ghost e: Event)
    requires fs.Valid()
    modifies fs.nodes, fs.bitmap
    ensures fs.Valid() && Step(old(StateOf(fs)), e, StateOf(fs)) && Does(old(StateOf(fs)), RemoveAll(i), r, e)
  {
    hide *;
    StateIs(fs);
    ghost var s, fl, u := StateOf(fs), FilesOf(fs.nodes), fs.bitmap[..];
    AdmissibleIs(s, RemoveAll(i));
    if i < |fs.nodes| && fs.nodes[i].state != 0 {
      fs.ValidIs();
      fs.RemoveDirectory(i);
      r, e := 0, Removed(i);
      StateIs(fs);
      fs.ValidIs();
      DeletionsCounted(s.table, fl, fs.disk[..], u, fs.first, TableOf(fs.nodes), FilesOf(fs.nodes), fs.bitmap[..]);
      RemovedStep(s, i, StateOf(fs));
    } else {
      r, e := -1, Nothing;
      NothingStep(s, RemoveAll(i));
    }
  }

  lemma FileSizes(fs: Sac)
    requires fs.Valid()
    ensures forall i: nat :: i in fs.Files() <==> i < |fs.nodes| && fs.nodes[i].state == 1
    ensures forall i: nat :: i in fs.Files() ==> |fs.Files()[i]| == fs.nodes[i].fileSize
  {
    fs.FilesLive();
    forall i: nat | i < |fs.nodes| && fs.nodes[i].state == 1
      ensures i in fs.Files() && |fs.Files()[i]| == fs.nodes[i].fileSize
    {
      fs.FileIs(i);
    }
  }

  /** The run of a list of requests: the states before each and after the last, and what each
      did. */
  ghost predicate Runs(ss: seq<State>, es: seq<Event>, rqs: seq<Request>, rs: seq<int>) {
    && |ss| == |rqs| + 1 && |es| == |rs| == |rqs|
    && forall k :: 0 <= k < |rqs| ==> Step(ss[k], es[k], ss[k + 1]) && Does(ss[k], rqs[k], rs[k], es[k])
  }

  lemma RunsMore(s: State, e: Event, rqs: seq<Request>, r: int, ss: seq<State>, es: seq<Event>, rs: seq<int>)
    requires rqs != [] && Runs(ss, es, rqs[1..], rs) && Step(s, e, ss[0]) && Does(s, rqs[0], r, e)
    ensures Runs([s] + ss, [e] + es, rqs, [r] + rs)
  {
    var st, et, rt := [s] + ss, [e] + es, [r] + rs;
    forall k | 0 <= k < |rqs| ensures Step(st[k], et[k], st[k + 1]) && Does(st[k], rqs[k], rt[k], et[k]) {
      if k > 0 {
        assert Step(ss[k - 1], es[k - 1], ss[k]) && Does(ss[k - 1], rqs[1..][k - 1], rs[k - 1], es[k - 1]);
      }
    }
    hide Step, Does;
  }

  lemma RunsNone(s: State)
    ensures Runs([s], [], [], [])
  {
  }

  /** Any list of requests is a run. */
  method ServeAll(fs: Sac, rqs: seq<Request>) returns (rs: seq<int>, ghost ss: seq<State>, ghost es: seq<Event>)
    requires fs.Valid()
    modifies fs.nodes, fs.disk, fs.bitmap
    ensures fs.Valid() && Runs(ss, es, rqs, rs) && |ss| == |es| + 1 == |rqs| + 1
    ensures ss[0] == old(StateOf(fs)) && ss[|rqs|] == StateOf(fs)
    decreases |rqs|
  {
    hide *;
    if rqs == [] {
      RunsNone(StateOf(fs));
      return [], [StateOf(fs)], [];
    }
    ghost var s := StateOf(fs);
    ghost var e, st, et;
    var r, rt;
    r, e := Serve(fs, rqs[0]);
    rt, st, et := ServeAll(fs, rqs[1..]);
    RunsMore(s, e, rqs, r, st, et, rt);
    rs, ss, es := [r] + rt, [s] + st, [e] + et;
  }

  /** The file is neither deleted nor below a removed directory in the run. */
  ghost predicate Spared(ss: seq<State>, es: seq<Event>, i: nat) {
    |ss| == |es| + 1 && forall k :: 0 <= k < |es| ==> Spares(ss[k], es[k], i)
  }

  /** After any list of requests a file that none of them has deleted reads, from its first
      byte, as what it held and all that has been written to it since, in order: all that the
      appends wanted when every one of them returned its count. */
  method ServeAndRead(fs: Sac, rqs: seq<Request>, i: nat)
      returns (data: seq<byte>, rs: seq<int>, ghost ss: seq<State>, ghost es: seq<Event>)
    requires fs.Valid() && i in fs.Files()
    modifies fs.nodes, fs.disk, fs.bitmap
    ensures fs.Valid() && Runs(ss, es, rqs, rs) && |ss| == |es| + 1 == |rqs| + 1
    ensures ss[0] == old(StateOf(fs)) && ss[|rqs|] == StateOf(fs)
    ensures Spared(ss, es, i) ==> data == old(fs.Files())[i] + Written(es, i)
    ensures Spared(ss, es, i) && AllCounted(rqs, rs, i) ==> data == old(fs.Files())[i] + Asked(rqs, i)
  {
    hide *;
    StateIs(fs);
    data := [];
    rs, ss, es := ServeAll(fs, rqs);
    StateIs(fs);
    CodesAre();
    if i < |fs.nodes| && fs.nodes[i].state == 1 {
      fs.FileIs(i);
      fs.GoodIs(fs.nodes[i]);
      var size := fs.nodes[i].fileSize;
      ReadsWhole(fs, i);
      var _, bytes := fs.ReadFile(i, size, 0);
      data := bytes;
    }
    if Spared(ss, es, i) {
      SparedHolds(ss, es, rqs, rs, i);
      fs.FilesLive();
      if AllCounted(rqs, rs, i) {
        WrittenIsAsked(ss, es, rqs, rs, i);
      }
    }
  }

  lemma SparedHolds(ss: seq<State>, es: seq<Event>, rqs: seq<Request>, rs: seq<int>, i: nat)
    requires Runs(ss, es, rqs, rs) && Spared(ss, es, i) && i in ss[0].files
    ensures |ss| == |es| + 1 && i in ss[|es|].files && ss[|es|].files[i] == ss[0].files[i] + Written(es, i)
  {
    HoldsWhatWasWritten(ss, es, i);
  }

  lemma ReadsWhole(fs: Sac, i: nat)
    requires fs.Valid() && i < |fs.nodes| && fs.nodes[i].state == 1
    ensures 0 % BLOCK == 0 && i in fs.Files() && |fs.Files()[i]| == fs.nodes[i].fileSize
    ensures fs.Files()[i][0..|fs.Files()[i]|] == fs.Files()[i] && (fs.nodes[i].fileSize == 0 ==> fs.Files()[i] == [])
    ensures var f := FileOf(fs.nodes[i]); Available(f, 0, f.size) == f.size && Mapped(f, fs.disk[..], 0, f.size)
  {
    fs.FileIs(i);
  }
}
