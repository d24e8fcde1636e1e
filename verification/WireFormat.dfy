/** The bytes of SUSE, MUSE and SAC messages: what is written, how it reads back, and where
    one message of a stream ends. */
module WireFormat {
  import opened Bytes

  const MESSAGE_CALL: nat := 1
  const MESSAGE_FUNCTION_RET: nat := 2
  const MESSAGE_NEW_ULT: nat := 3

  const VAR_UINT32: nat := 0
  const VAR_CHAR_PTR: nat := 1
  const VAR_VOID_PTR: nat := 2
  const VAR_SIZE_T: nat := 3

  const HEADER: nat := 7       // message_type, caller_id and data_size
  const MAX_ARGS: nat := 9     // those that the decoder clears before it reads

  /** `VarValue`: a number in the union itself, or what a pointer in it points to. */
  datatype Value = Number(n: nat) | Data(bytes: seq<byte>)
  datatype Arg = Arg(kind: nat, size: nat, value: Value)
  datatype Function = Function(code: nat, args: seq<Arg>)
  datatype Header = Header(kind: nat, caller: nat, dataSize: nat)
  datatype Body = Call(fun: Function) | Response(word: nat) | Nothing
  datatype Message = Message(header: Header, body: Body)

  /** What a decoder makes of the front of a buffer, and how many bytes of it that takes. */
  datatype Parsed<T> = Got(value: T, used: nat) | Bad

  // ---- numbers ----

  function Limit(size: nat): (l: nat)
    ensures l > 0
  {
    if size == 0 then 1 else 256 * Limit(size - 1)
  }

  /** The first `size` bytes of a little-endian number. */
  function EncodeNumber(n: nat, size: nat): (s: seq<byte>)
    ensures |s| == size
  {
    if size == 0 then [] else [n % 256] + EncodeNumber(n / 256, size - 1)
  }

  /** The number whose first bytes are these, the others being 0. */
  function DecodeNumber(s: seq<byte>): nat {
    if s == [] then 0 else s[0] + 256 * DecodeNumber(s[1..])
  }

  lemma {:induction false} NumberRoundTrip(n: nat, size: nat)
    requires n < Limit(size)
    ensures DecodeNumber(EncodeNumber(n, size)) == n
  {
    if size > 0 {
      NumberRoundTrip(n / 256, size - 1);
      assert EncodeNumber(n, size)[1..] == EncodeNumber(n / 256, size - 1);
    }
  }

  lemma {:induction false} NumberInjective(s: seq<byte>)
    ensures DecodeNumber(s) < Limit(|s|) && EncodeNumber(DecodeNumber(s), |s|) == s
  {
    if s != [] {
      NumberInjective(s[1..]);
      assert s == [s[0]] + s[1..];
      Digit(s[0], DecodeNumber(s[1..]));
      hide Limit;
      LimitNext(|s|);
    }
  }

  lemma LimitNext(size: nat)
    requires size > 0
    ensures Limit(size) == 256 * Limit(size - 1)
  {
  }

  // ---- arguments ----

  /** The widest number that the union holds for this type. */
  function Width(kind: nat): nat {
    if kind == VAR_UINT32 then 4 else 8
  }

  ghost predicate ArgOk(a: Arg) {
    && a.kind <= VAR_SIZE_T && a.size < WORD
    && if a.kind in {VAR_UINT32, VAR_SIZE_T} then a.size <= Width(a.kind) && a.value.Number?
       && a.value.n < Limit(a.size)
       else a.value.Data? && |a.value.bytes| == a.size
  }

  function EncodeValue(a: Arg): (s: seq<byte>)
    ensures ArgOk(a) ==> |s| == a.size
  {
    match a.value
    case Number(n) => EncodeNumber(n, a.size)
    case Data(bytes) => bytes
  }

  function EncodeArg(a: Arg): (s: seq<byte>)
    requires a.kind < 256 && a.size < WORD
    ensures ArgOk(a) ==> |s| == 5 + a.size
  {
    [a.kind] + EncodeWord(a.size) + EncodeValue(a)
  }

  /** Bad stands for an unknown type, for which `function_arg_decode` returns -1, and for
      reading past the buffer's end or writing past the union's. */
  function ParseArg(b: seq<byte>): Parsed<Arg> {
    if |b| < 5 then Bad else
    var kind: int, size := b[0], DecodeWord(b[1..5]);
    if kind > VAR_SIZE_T || |b| < 5 + size then Bad
    else if kind in {VAR_CHAR_PTR, VAR_VOID_PTR} then Got(Arg(kind, size, Data(b[5..5 + size])), 5 + size)
    else if size > Width(kind) then Bad
    else Got(Arg(kind, size, Number(DecodeNumber(b[5..5 + size]))), 5 + size)
  }

  lemma ArgRoundTrip(a: Arg, rest: seq<byte>)
    requires ArgOk(a)
    ensures ParseArg(EncodeArg(a) + rest) == Got(a, 5 + a.size)
  {
    var b := EncodeArg(a) + rest;
    WordRoundTrip(a.size);
    assert b[1..5] == EncodeWord(a.size);
    assert b[5..5 + a.size] == EncodeValue(a);
    if a.value.Number? {
      NumberRoundTrip(a.value.n, a.size);
    }
  }

  lemma ArgCanonical(b: seq<byte>)
    requires ParseArg(b).Got?
    ensures var p := ParseArg(b);
            ArgOk(p.value) && p.used == 5 + p.value.size <= |b|
            && EncodeArg(p.value) == b[..p.used]
  {
    var size := DecodeWord(b[1..5]);
    WordInjective(b[1..5]);
    NumberInjective(b[5..5 + size]);
    assert b[..5 + size] == [b[0]] + b[1..5] + b[5..5 + size];
  }

  lemma Regroup(x: seq<byte>, y: seq<byte>, z: seq<byte>)
    ensures x + y + z == x + (y + z)
    ensures (x + (y + z))[|x|..] == y + z
  {
  }

  ghost predicate ArgsOk(args: seq<Arg>) {
    forall i :: 0 <= i < |args| ==> ArgOk(args[i])
  }

  function EncodeArgs(args: seq<Arg>): seq<byte>
    requires forall i :: 0 <= i < |args| ==> args[i].kind < 256 && args[i].size < WORD
  {
    if args == [] then [] else EncodeArg(args[0]) + EncodeArgs(args[1..])
  }

  function ParseArgs(b: seq<byte>, n: nat): Parsed<seq<Arg>>
    decreases n
  {
    if n == 0 then Got([], 0) else
    var a := ParseArg(b);
    if a.Bad? then Bad else
    if a.used > |b| then Bad else
    var more := ParseArgs(b[a.used..], n - 1);
    if more.Bad? then Bad else Got([a.value] + more.value, a.used + more.used)
  }

  lemma {:induction false} ArgsRoundTrip(args: seq<Arg>, rest: seq<byte>)
    requires ArgsOk(args)
    ensures ParseArgs(EncodeArgs(args) + rest, |args|) == Got(args, |EncodeArgs(args)|)
  {
    hide *;
    EncodeArgsIs(args);
    if args == [] {
      NothingParsed(EncodeArgs(args) + rest);
    } else {
      var first, a, more := args[0], EncodeArg(args[0]), EncodeArgs(args[1..]);
      Regroup(a, more, rest);
      ArgRoundTrip(first, more + rest);
      ArgsRoundTrip(args[1..], rest);
      ParseNext(a + (more + rest), |args|, first, |a|, args[1..], |more|);
      assert args == [first] + args[1..];
    }
  }

  lemma NothingParsed(b: seq<byte>)
    ensures ParseArgs(b, 0) == Got([], 0)
  {
  }

  lemma EncodeArgsIs(args: seq<Arg>)
    requires ArgsOk(args)
    ensures forall i :: 0 <= i < |args| ==> args[i].kind < 256 && args[i].size < WORD
    ensures if args == [] then EncodeArgs(args) == [] else
            && ArgOk(args[0]) && ArgsOk(args[1..]) && |EncodeArg(args[0])| == 5 + args[0].size
            && EncodeArgs(args) == EncodeArg(args[0]) + EncodeArgs(args[1..])
  {
  }

  lemma ParseNext(b: seq<byte>, n: nat, a: Arg, k: nat, more: seq<Arg>, j: nat)
    requires n > 0 && k <= |b| && ParseArg(b) == Got(a, k) && ParseArgs(b[k..], n - 1) == Got(more, j)
    ensures ParseArgs(b, n) == Got([a] + more, k + j)
  {
  }

  lemma {:induction false} ArgsCanonical(b: seq<byte>, n: nat)
    requires ParseArgs(b, n).Got?
    ensures var p := ParseArgs(b, n);
            && |p.value| == n && ArgsOk(p.value) && p.used == |EncodeArgs(p.value)| <= |b|
            && EncodeArgs(p.value) == b[..p.used]
    decreases n
  {
    hide ParseArg, EncodeArg, ArgOk;
    if n > 0 {
      var a := ParseArg(b);
      ArgCanonical(b);
      ArgsCanonical(b[a.used..], n - 1);
      var p, more := ParseArgs(b, n), ParseArgs(b[a.used..], n - 1);
      assert p.value[1..] == more.value && p.value[0] == a.value;
      Prefixes(b, a.used, more.used);
    }
  }

  lemma Prefixes(b: seq<byte>, i: nat, j: nat)
    requires i + j <= |b|
    ensures b[..i] + b[i..][..j] == b[..i + j]
  {
  }

  lemma {:induction false} EncodeArgsAppend(args: seq<Arg>, a: Arg)
    requires forall i :: 0 <= i < |args| ==> args[i].kind < 256 && args[i].size < WORD
    requires a.kind < 256 && a.size < WORD
    ensures EncodeArgs(args + [a]) == EncodeArgs(args) + EncodeArg(a)
  {
    if args == [] {
      assert EncodeArgs([]) == [];
      assert [a][1..] == [];
    } else {
      EncodeArgsAppend(args[1..], a);
      assert (args + [a])[1..] == args[1..] + [a] && (args + [a])[0] == args[0];
      Regroup(EncodeArg(args[0]), EncodeArgs(args[1..]), EncodeArg(a));
      hide EncodeArg;
    }
  }

  // ---- functions and messages ----

  ghost predicate FunctionOk(f: Function) {
    f.code < 256 && |f.args| <= MAX_ARGS && ArgsOk(f.args)
  }

  function EncodeFunction(f: Function): (s: seq<byte>)
    requires f.code < 256 && |f.args| < 256 && forall i :: 0 <= i < |f.args| ==>
             f.args[i].kind < 256 && f.args[i].size < WORD
  {
    [f.code, |f.args|] + EncodeArgs(f.args)
  }

  function ParseFunction(b: seq<byte>): Parsed<Function> {
    if |b| < 2 || b[1] > MAX_ARGS then Bad else
    var args := ParseArgs(b[2..], b[1]);
    if args.Bad? then Bad else Got(Function(b[0], args.value), 2 + args.used)
  }

  lemma FunctionRoundTrip(f: Function, rest: seq<byte>)
    requires FunctionOk(f)
    ensures ParseFunction(EncodeFunction(f) + rest) == Got(f, |EncodeFunction(f)|)
  {
    var b := EncodeFunction(f) + rest;
    assert b[2..] == EncodeArgs(f.args) + rest;
    ArgsRoundTrip(f.args, rest);
  }

  lemma FunctionCanonical(b: seq<byte>)
    requires ParseFunction(b).Got?
    ensures var p := ParseFunction(b);
            FunctionOk(p.value) && p.used == |EncodeFunction(p.value)| <= |b|
            && EncodeFunction(p.value) == b[..p.used]
  {
    hide ParseArgs, EncodeArgs, ArgsOk;
    ArgsCanonical(b[2..], b[1]);
    var p := ParseArgs(b[2..], b[1]);
    ArgsFields(p.value);
    assert b[..2 + p.used] == [b[0], b[1]] + b[2..][..p.used];
  }

  lemma ArgsFields(args: seq<Arg>)
    requires ArgsOk(args)
    ensures forall i :: 0 <= i < |args| ==> args[i].kind < 256 && args[i].size < WORD
  {
  }

  ghost predicate HeaderOk(h: Header) {
    h.kind < 256 && h.caller < 0x1_0000 && h.dataSize < WORD
  }

  function EncodeHeader(h: Header): (s: seq<byte>)
    requires h.kind < 256 && h.caller < 0x1_0000 && h.dataSize < WORD
    ensures |s| == HEADER
  {
    [h.kind] + EncodeNumber(h.caller, 2) + EncodeWord(h.dataSize)
  }

  function ParseHeader(b: seq<byte>): (h: Header)
    requires |b| >= HEADER
    ensures h.kind < 256 && h.dataSize < WORD
  {
    Header(b[0], DecodeNumber(b[1..3]), DecodeWord(b[3..7]))
  }

  lemma HeaderRoundTrip(h: Header, rest: seq<byte>)
    requires HeaderOk(h)
    ensures ParseHeader(EncodeHeader(h) + rest) == h
  {
    var b := EncodeHeader(h) + rest;
    assert b[1..3] == EncodeNumber(h.caller, 2) && b[3..7] == EncodeWord(h.dataSize);
    assert Limit(1) == 256 && Limit(2) == 0x1_0000;
    NumberRoundTrip(h.caller, 2);
    WordRoundTrip(h.dataSize);
  }

  lemma HeaderCanonical(b: seq<byte>)
    requires |b| >= HEADER
    ensures HeaderOk(ParseHeader(b)) && EncodeHeader(ParseHeader(b)) == b[..HEADER]
  {
    assert Limit(1) == 256 && Limit(2) == 0x1_0000;
    NumberInjective(b[1..3]);
    WordInjective(b[3..7]);
    assert b[..7] == [b[0]] + b[1..3] + b[3..7];
  }

  /** A message whose size field counts its data: for a function, `tamDataFunction` bytes. */
  ghost predicate MessageOk(m: Message) {
    && HeaderOk(m.header)
    && match m.body
       case Call(f) => m.header.kind == MESSAGE_CALL && FunctionOk(f) && m.header.dataSize == |EncodeFunction(f)|
       case Response(word) => m.header.kind == MESSAGE_FUNCTION_RET && word < WORD && m.header.dataSize == 4
       case Nothing => false
  }

  function EncodeBody(body: Body): (s: seq<byte>)
    requires body.Response? ==> body.word < WORD
    requires body.Call? ==> var f := body.fun;
               f.code < 256 && |f.args| < 256 && forall i :: 0 <= i < |f.args| ==>
                 f.args[i].kind < 256 && f.args[i].size < WORD
  {
    match body
    case Call(f) => EncodeFunction(f)
    case Response(word) => EncodeWord(word)
    case Nothing => []
  }

  ghost function Encode(m: Message): (s: seq<byte>)
    requires MessageOk(m)
    ensures |s| == HEADER + m.header.dataSize
  {
    EncodeHeader(m.header) + EncodeBody(m.body)
  }

  function Parse(b: seq<byte>): Parsed<Message> {
    if |b| < HEADER then Bad else
    var h := ParseHeader(b);
    if h.kind == MESSAGE_CALL then
      var f := ParseFunction(b[HEADER..]);
      if f.Bad? then Bad else Got(Message(h, Call(f.value)), HEADER + f.used)
    else if h.kind == MESSAGE_FUNCTION_RET && |b| >= HEADER + 4 then
      Got(Message(h, Response(DecodeWord(b[HEADER..HEADER + 4]))), HEADER + 4)
    else Bad
  }

  /** Decoding what was encoded gives the message back, takes exactly the bytes that were
      written, and is not misled by what follows them. */
  lemma RoundTrip(m: Message, rest: seq<byte>)
    requires MessageOk(m)
    ensures Parse(Encode(m) + rest) == Got(m, |Encode(m)|)
  {
    var b := Encode(m) + rest;
    assert b == EncodeHeader(m.header) + (EncodeBody(m.body) + rest);
    HeaderRoundTrip(m.header, EncodeBody(m.body) + rest);
    assert b[HEADER..] == EncodeBody(m.body) + rest;
    match m.body {
      case Call(f) => FunctionRoundTrip(f, rest);
      case Response(word) =>
        WordRoundTrip(word);
        assert b[HEADER..HEADER + 4] == EncodeWord(word);
    }
  }

  /** Nothing but the encoding of a message decodes to it. */
  lemma Canonical(b: seq<byte>)
    requires Parse(b).Got? && Parse(b).used == HEADER + Parse(b).value.header.dataSize
    ensures var p := Parse(b); MessageOk(p.value) && p.used <= |b| && Encode(p.value) == b[..p.used]
  {
    HeaderCanonical(b);
    var p := Parse(b);
    if p.value.body.Call? {
      FunctionCanonical(b[HEADER..]);
    } else {
      WordInjective(b[HEADER..HEADER + 4]);
    }
    assert b[..p.used] == b[..HEADER] + b[HEADER..p.used];
  }

  // ---- streams ----

  lemma FrameOf(m: Message, rest: seq<byte>)
    requires MessageOk(m)
    ensures var b := Encode(m) + rest;
            && |b| >= HEADER && FrameSize(b) == |Encode(m)| <= |b|
            && b[..FrameSize(b)] == Encode(m) && b[FrameSize(b)..] == rest
  {
    Regroup(EncodeHeader(m.header), EncodeBody(m.body), rest);
    HeaderRoundTrip(m.header, EncodeBody(m.body) + rest);
  }

  /** How many bytes the message at the front of a stream takes, by its header. */
  function FrameSize(b: seq<byte>): (n: nat)
    requires |b| >= HEADER
    ensures n >= HEADER
  {
    HEADER + ParseHeader(b).dataSize
  }

  /** The stream cut into messages as `receive_packet_var` cuts it. */
  function Split(b: seq<byte>): seq<seq<byte>>
    decreases |b|
  {
    if |b| < HEADER || |b| < FrameSize(b) then [] else [b[..FrameSize(b)]] + Split(b[FrameSize(b)..])
  }

  ghost predicate MessagesOk(ms: seq<Message>) {
    forall i :: 0 <= i < |ms| ==> MessageOk(ms[i])
  }

  ghost function Stream(ms: seq<Message>): seq<byte>
    requires MessagesOk(ms)
  {
    if ms == [] then [] else Encode(ms[0]) + Stream(ms[1..])
  }

  /** However many messages are sent one after the other, they are told apart. */
  lemma {:induction false} StreamSplits(ms: seq<Message>)
    requires MessagesOk(ms)
    ensures |Split(Stream(ms))| == |ms|
    ensures forall i :: 0 <= i < |ms| ==> Split(Stream(ms))[i] == Encode(ms[i])
  {
    if ms != [] {
      FrameOf(ms[0], Stream(ms[1..]));
      StreamSplits(ms[1..]);
      hide Encode, FrameSize, MessageOk;
    }
  }

  /** No two different lists of messages are sent as the same bytes. */
  lemma StreamInjective(ms: seq<Message>, ns: seq<Message>)
    requires MessagesOk(ms) && MessagesOk(ns) && Stream(ms) == Stream(ns)
    ensures ms == ns
  {
    StreamSplits(ms);
    StreamSplits(ns);
    forall i | 0 <= i < |ms| ensures ms[i] == ns[i] {
      RoundTrip(ms[i], []);
      RoundTrip(ns[i], []);
      assert Encode(ms[i]) + [] == Encode(ns[i]) + [];
    }
  }
}
