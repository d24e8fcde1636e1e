/** Where each byte of a message lies, counted from the start of the buffer. */
module WireLayout {
  import opened Bytes
  import opened WireFormat

  /** Bytes 0 to 6: type, caller and data size, lowest byte first. */
  ghost predicate HeaderAt(b: seq<byte>, h: Header) {
    && |b| >= 7 && b[0] == h.kind && Two(b[1], b[2]) == h.caller
    && Four(b[3], b[4], b[5], b[6]) == h.dataSize
  }

  /** How many bytes the first `k` arguments take. */
  function Taken(args: seq<Arg>, k: nat): nat
    requires k <= |args|
  {
    if k == 0 then 0 else Taken(args, k - 1) + 5 + args[k - 1].size
  }

  /** 256^j. */
  function Place(j: nat): (p: nat)
    ensures p > 0
  {
    if j == 0 then 1 else 256 * Place(j - 1)
  }

  /** At `at`: the argument's type, the size of its value and the bytes of that, of a number
      the lowest first. */
  ghost predicate ArgAt(b: seq<byte>, at: nat, a: Arg) {
    && at + 5 + a.size <= |b| && b[at] == a.kind && WordAt(b, at + 1, a.size)
    && forall j :: 0 <= j < a.size ==>
         b[at + 5 + j] == if a.value.Number? then a.value.n / Place(j) % 256
                          else if j < |a.value.bytes| then a.value.bytes[j] else -1
  }

  /** At `at`: the function's code, the number of its arguments, and these one after the
      other. */
  ghost predicate FunctionAt(b: seq<byte>, at: nat, f: Function) {
    && at + 2 <= |b| && b[at] == f.code && b[at + 1] == |f.args|
    && forall k :: 0 <= k < |f.args| ==> ArgAt(b, at + 2 + Taken(f.args, k), f.args[k])
  }

  lemma WordLaid(n: nat)
    requires n < WORD
    ensures WordAt(EncodeWord(n), 0, n)
  {
    WordRoundTrip(n);
  }

  lemma HeaderLaid(h: Header)
    requires HeaderOk(h)
    ensures HeaderAt(EncodeHeader(h), h)
  {
    var s := EncodeNumber(h.caller, 2);
    assert s == [h.caller % 256] + EncodeNumber(h.caller / 256, 1);
    assert EncodeNumber(h.caller / 256, 1) == [h.caller / 256 % 256] + EncodeNumber(h.caller / 256 / 256, 0);
    WordRoundTrip(h.dataSize);
    assert EncodeHeader(h)[3..7] == EncodeWord(h.dataSize);
  }

  lemma {:induction false} NumberLaid(n: nat, size: nat, j: nat)
    requires j < size
    ensures EncodeNumber(n, size)[j] == n / Place(j) % 256
  {
    if j > 0 {
      NumberLaid(n / 256, size - 1, j - 1);
      DivDiv(n, 256, Place(j - 1));
    }
  }

  lemma DivDiv(n: nat, a: nat, b: nat)
    requires a > 0 && b > 0
    ensures a * b > 0 && n / a / b == n / (a * b)
  {
    var p, q := n / a, n / a / b;
    Parts(n, a);
    Parts(p, b);
    Times(q * b, p, a);
    Times(p + 1, q * b + b, a);
    Regrouped(q, b, a);
    Between(n, a * b, q);
  }

  lemma Parts(n: nat, a: nat)
    requires a > 0
    ensures n / a * a <= n < n / a * a + a && n / a * a + a == (n / a + 1) * a
  {
  }

  lemma Times(x: nat, y: nat, u: nat)
    requires x <= y
    ensures x * u <= y * u
  {
  }

  lemma Regrouped(q: nat, b: nat, a: nat)
    ensures q * b * a == q * (a * b) && (q * b + b) * a == q * (a * b) + a * b
  {
  }

  lemma Between(n: nat, m: nat, q: nat)
    requires q * m <= n < q * m + m
    ensures m > 0 && n / m == q
  {
    Parts(n, m);
    if n / m < q {
      Times(n / m + 1, q, m);
    } else if n / m > q {
      Times(q + 1, n / m, m);
    }
  }

  lemma ArgLaid(a: Arg)
    requires ArgOk(a)
    ensures ArgAt(EncodeArg(a), 0, a)
  {
    WordRoundTrip(a.size);
    assert EncodeArg(a)[1..5] == EncodeWord(a.size) && EncodeArg(a)[5..] == EncodeValue(a);
    if a.value.Number? {
      forall j | 0 <= j < a.size ensures EncodeArg(a)[5 + j] == a.value.n / Place(j) % 256 {
        NumberLaid(a.value.n, a.size, j);
      }
    }
  }

  /** The bytes `s` are in the buffer at `at`. */
  ghost predicate At(b: seq<byte>, at: nat, s: seq<byte>) {
    at + |s| <= |b| && b[at..at + |s|] == s
  }

  /** What is laid out in part of a buffer is so in the whole. */
  lemma ArgMoved(s: seq<byte>, a: Arg, b: seq<byte>, at: nat)
    requires ArgAt(s, 0, a) && At(b, at, s)
    ensures ArgAt(b, at, a)
  {
    assert forall i :: 0 <= i < |s| ==> b[at + i] == s[i];
  }

  lemma {:induction false} TakenShift(args: seq<Arg>, k: nat)
    requires k < |args|
    ensures Taken(args, k + 1) == 5 + args[0].size + Taken(args[1..], k)
  {
    if k > 0 {
      TakenShift(args, k - 1);
    }
  }

  lemma Halves(b: seq<byte>, at: nat, x: seq<byte>, y: seq<byte>)
    requires At(b, at, x + y)
    ensures At(b, at, x) && At(b, at + |x|, y)
  {
    assert b[at..at + |x + y|][..|x|] == x && b[at..at + |x + y|][|x|..] == y;
  }

  /** The arguments' bytes are at `at` when those of all are. */
  lemma {:induction false} ArgsLaid(args: seq<Arg>, b: seq<byte>, at: nat, k: nat)
    requires ArgsOk(args) && k < |args| && At(b, at, EncodeArgs(args))
    ensures ArgAt(b, at + Taken(args, k), args[k])
    decreases k
  {
    hide *;
    EncodeArgsIs(args);
    var first, rest := EncodeArg(args[0]), EncodeArgs(args[1..]);
    Halves(b, at, first, rest);
    if k == 0 {
      NoneTaken(args);
      ArgLaid(args[0]);
      ArgMoved(first, args[0], b, at);
    } else {
      var more := args[1..];
      ArgsLaid(more, b, at + |first|, k - 1);
      TakenShift(args, k - 1);
      assert more[k - 1] == args[k] && at + |first| + Taken(more, k - 1) == at + Taken(args, k);
    }
  }

  lemma NoneTaken(args: seq<Arg>)
    ensures Taken(args, 0) == 0
  {
  }

  lemma {:induction false} TakenAll(args: seq<Arg>)
    requires ArgsOk(args)
    ensures |EncodeArgs(args)| == Taken(args, |args|)
  {
    if args != [] {
      TakenAll(args[1..]);
      TakenShift(args, |args| - 1);
    }
  }

  lemma FunctionLaid(f: Function, b: seq<byte>, at: nat)
    requires FunctionOk(f) && At(b, at, EncodeFunction(f))
    ensures FunctionAt(b, at, f)
  {
    hide *;
    HeadLaid(f, b, at);
    AllLaid(f.args, b, at + 2);
    IsFunction(f, b, at);
  }

  lemma HeadLaid(f: Function, b: seq<byte>, at: nat)
    requires FunctionOk(f) && At(b, at, EncodeFunction(f))
    ensures ArgsOk(f.args) && |f.args| < 256 && f.code < 256
    ensures forall i :: 0 <= i < |f.args| ==> f.args[i].kind < 256 && f.args[i].size < WORD
    ensures At(b, at, [f.code, |f.args|]) && At(b, at + 2, EncodeArgs(f.args))
  {
    FunctionIs(f);
    hide At, EncodeFunction, EncodeArgs, FunctionOk, ArgsOk;
    var head: seq<byte> := [f.code, |f.args|];
    Halves(b, at, head, EncodeArgs(f.args));
  }

  lemma FunctionSize(f: Function)
    requires FunctionOk(f)
    ensures |EncodeFunction(f)| == 2 + Taken(f.args, |f.args|)
  {
    FunctionIs(f);
    TakenAll(f.args);
    hide Taken, EncodeArgs;
  }

  lemma AllLaid(args: seq<Arg>, b: seq<byte>, at: nat)
    requires ArgsOk(args) && At(b, at, EncodeArgs(args))
    ensures forall k :: 0 <= k < |args| ==> ArgAt(b, at + Taken(args, k), args[k])
  {
    hide *;
    forall k | 0 <= k < |args| ensures ArgAt(b, at + Taken(args, k), args[k]) {
      ArgsLaid(args, b, at, k);
    }
  }

  lemma FunctionIs(f: Function)
    requires FunctionOk(f)
    ensures ArgsOk(f.args) && |f.args| < 256 && f.code < 256
    ensures forall i :: 0 <= i < |f.args| ==> f.args[i].kind < 256 && f.args[i].size < WORD
    ensures EncodeFunction(f) == [f.code, |f.args|] + EncodeArgs(f.args)
  {
  }

  lemma IsFunction(f: Function, b: seq<byte>, at: nat)
    requires f.code < 256 && |f.args| < 256 && At(b, at, [f.code, |f.args|])
    requires forall k :: 0 <= k < |f.args| ==> ArgAt(b, at + 2 + Taken(f.args, k), f.args[k])
    ensures FunctionAt(b, at, f)
  {
    hide ArgAt, Taken;
    assert b[at..at + 2][0] == f.code && b[at..at + 2][1] == |f.args|;
  }

  /** The bytes of a call or a response, wherever the rest of the buffer comes from. */
  lemma MessageLaid(m: Message, b: seq<byte>)
    requires MessageOk(m) && |Encode(m)| <= |b| && b[..|Encode(m)|] == Encode(m)
    ensures HeaderAt(b, m.header)
    ensures m.body.Call? ==>
              && FunctionAt(b, 7, m.body.fun)
              && |Encode(m)| == 9 + Taken(m.body.fun.args, |m.body.fun.args|)
    ensures m.body.Response? ==> WordAt(b, 7, m.body.word) && |Encode(m)| == 11
  {
    var s := Encode(m);
    HeaderLaid(m.header);
    assert b[..7] == s[..7] == EncodeHeader(m.header);
    HeaderMoved(m.header, b);
    assert b[7..|s|] == s[7..] == EncodeBody(m.body);
    if m.body.Call? {
      FunctionSize(m.body.fun);
      FunctionLaid(m.body.fun, b, 7);
    } else {
      WordLaid(m.body.word);
      assert b[7..11] == EncodeWord(m.body.word);
      hide EncodeWord;
      assert forall i :: 0 <= i < 4 ==> b[7 + i] == EncodeWord(m.body.word)[i];
    }
  }

  lemma HeaderMoved(h: Header, b: seq<byte>)
    requires HeaderOk(h) && |b| >= 7 && b[..7] == EncodeHeader(h)
    ensures HeaderAt(b, h)
  {
    HeaderLaid(h);
    hide EncodeHeader;
    assert forall i :: 0 <= i < 7 ==> b[i] == EncodeHeader(h)[i];
  }

  /** What a header read from a buffer says is what its bytes say. */
  lemma HeaderRead(b: seq<byte>)
    requires |b| >= 7
    ensures HeaderAt(b, ParseHeader(b)) && (|b| >= FrameSize(b) ==> FrameSize(b) == 7 + ParseHeader(b).dataSize)
  {
    HeaderCanonical(b);
    HeaderMoved(ParseHeader(b), b);
  }

  lemma ArgRead(b: seq<byte>)
    requires ParseArg(b).Got?
    ensures var p := ParseArg(b); ArgAt(b, 0, p.value) && p.used == 5 + p.value.size
  {
    ArgCanonical(b);
    var p := ParseArg(b);
    ArgLaid(p.value);
    assert b[0..0 + p.used] == b[..p.used];
    ArgMoved(EncodeArg(p.value), p.value, b, 0);
  }

  /** And so for what a decoder makes of the rest. */
  lemma FunctionRead(b: seq<byte>)
    requires ParseFunction(b).Got?
    ensures var p := ParseFunction(b); FunctionAt(b, 0, p.value) && p.used == 2 + Taken(p.value.args, |p.value.args|)
  {
    FunctionCanonical(b);
    var p := ParseFunction(b);
    assert b[0..0 + p.used] == b[..p.used];
    FunctionSize(p.value);
    FunctionLaid(p.value, b, 0);
  }
}
