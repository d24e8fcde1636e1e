/** The encoders write through a cursor that advances, the decoders read through one. */
module Messages {
  import opened Bytes
  import opened Sequences
  import opened WireFormat
  import opened WireLayout

  /** memcpy into a buffer. */
  method CopyTo(buffer: array<byte>, cursor: nat, data: seq<byte>)
    requires cursor + |data| <= buffer.Length
    modifies buffer
    ensures buffer[..] == Splice(old(buffer[..]), cursor, data)
  {
    for i := 0 to |data|
      invariant forall k :: 0 <= k < buffer.Length ==>
                buffer[k] == if cursor <= k < cursor + i then data[k - cursor] else old(buffer[k])
    {
      buffer[cursor + i] := data[i];
    }
  }

  lemma SpliceMore<T>(s: seq<T>, at: nat, x: seq<T>, y: seq<T>)
    requires at + |x| + |y| <= |s|
    ensures Splice(Splice(s, at, x), at + |x|, y) == Splice(s, at, x + y)
  {
  }

  /** `tamDataFunction`: how many bytes the encoder will write. */
  method DataSize(f: Function) returns (size: nat)
    requires FunctionOk(f)
    ensures size == |EncodeFunction(f)|
  {
    size := 2;
    assert f.args[..0] == [];
    for y := 0 to |f.args|
      invariant size == 2 + |EncodeArgs(f.args[..y])|
    {
      EncodeArgsAppend(f.args[..y], f.args[y]);
      assert f.args[..y + 1] == f.args[..y] + [f.args[y]];
      size := size + 1;
      size := size + 4;
      size := size + f.args[y].size;
    }
    assert f.args[..|f.args|] == f.args;
  }

  /** `header_encode`, which writes a whole header wherever one byte would fit. */
  method PutHeader(h: Header, buffer: array<byte>, buffer_size: nat) returns (n: int)
    requires HeaderOk(h) && (buffer_size >= 1 ==> HEADER <= buffer.Length)
    modifies buffer
    ensures n == if buffer_size < 1 then -1 else HEADER
    ensures buffer[..] == if n == -1 then old(buffer[..]) else Splice(old(buffer[..]), 0, EncodeHeader(h))
    ensures n != -1 ==> HeaderAt(buffer[..], h)
  {
    if buffer_size < 1 {
      return -1;
    }
    ghost var was := buffer[..];
    var cursor := 0;
    CopyTo(buffer, cursor, [h.kind]);
    cursor := cursor + 1;
    CopyTo(buffer, cursor, EncodeNumber(h.caller, 2));
    cursor := cursor + 2;
    CopyTo(buffer, cursor, EncodeWord(h.dataSize));
    cursor := cursor + 4;
    SpliceMore(was, 0, [h.kind], EncodeNumber(h.caller, 2));
    SpliceMore(was, 0, [h.kind] + EncodeNumber(h.caller, 2), EncodeWord(h.dataSize));
    HeaderMoved(h, buffer[..]);
    n := cursor;
  }

  /** `function_arg_encode`. */
  method PutArg(a: Arg, buffer: array<byte>, at: nat) returns (n: nat)
    requires ArgOk(a) && at + 5 + a.size <= buffer.Length
    modifies buffer
    ensures n == |EncodeArg(a)| && buffer[..] == Splice(old(buffer[..]), at, EncodeArg(a))
    ensures ArgAt(buffer[..], at, a)
  {
    hide Splice, EncodeWord, ArgAt, EncodeNumber;
    ghost var was := buffer[..];
    var cursor := at;
    CopyTo(buffer, cursor, [a.kind]);
    cursor := cursor + 1;
    CopyTo(buffer, cursor, EncodeWord(a.size));
    cursor := cursor + 4;
    SpliceMore(was, at, [a.kind], EncodeWord(a.size));
    match a.value {
      case Number(val) =>
        CopyTo(buffer, cursor, EncodeNumber(val, a.size));
      case Data(bytes) =>
        CopyTo(buffer, cursor, bytes);
    }
    cursor := cursor + a.size;
    SpliceMore(was, at, [a.kind] + EncodeWord(a.size), EncodeValue(a));
    hide EncodeValue;
    ArgPut(was, at, a);
    n := cursor - at;
  }

  lemma ArgPut(was: seq<byte>, at: nat, a: Arg)
    requires ArgOk(a) && at + 5 + a.size <= |was|
    ensures ArgAt(Splice(was, at, EncodeArg(a)), at, a)
  {
    ArgLaid(a);
    ArgMoved(EncodeArg(a), a, Splice(was, at, EncodeArg(a)), at);
    hide ArgAt, EncodeArg;
  }

  /** `message_function_encode`. */
  method PutFunction(f: Function, dataSize: nat, buffer: array<byte>, at: nat, buffer_size: nat) returns (n: int)
    requires FunctionOk(f) && at + |EncodeFunction(f)| <= buffer.Length
    modifies buffer
    ensures n == if buffer_size < HEADER + dataSize then -1 else |EncodeFunction(f)|
    ensures buffer[..] == if n == -1 then old(buffer[..]) else Splice(old(buffer[..]), at, EncodeFunction(f))
  {
    if buffer_size < HEADER + dataSize {
      return -1;
    }
    ghost var was := buffer[..];
    var cursor := at;
    CopyTo(buffer, cursor, [f.code]);
    cursor := cursor + 1;
    CopyTo(buffer, cursor, [|f.args|]);
    cursor := cursor + 1;
    SpliceMore(was, at, [f.code], [|f.args|]);
    WrittenFirst(f);
    hide Splice, EncodeArg, Written, EncodeFunction;
    for nargs := 0 to |f.args|
      invariant cursor == at + |Written(f, nargs)| && buffer[..] == Splice(was, at, Written(f, nargs))
    {
      WrittenNext(f, nargs);
      var m := PutArg(f.args[nargs], buffer, cursor);
      SpliceMore(was, at, Written(f, nargs), EncodeArg(f.args[nargs]));
      cursor := cursor + m;
    }
    n := cursor - at;
  }

  /** What has been written of a function after `k` arguments. */
  ghost function Written(f: Function, k: nat): (s: seq<byte>)
    requires FunctionOk(f) && k <= |f.args|
    ensures |s| <= |EncodeFunction(f)|
  {
    EncodeArgsPrefix(f.args, k);
    [f.code, |f.args|] + EncodeArgs(f.args[..k])
  }

  lemma WrittenFirst(f: Function)
    requires FunctionOk(f)
    ensures Written(f, 0) == [f.code] + [|f.args|] && Written(f, |f.args|) == EncodeFunction(f)
  {
    assert f.args[..0] == [] && EncodeArgs([]) == [] && f.args[..|f.args|] == f.args;
  }

  lemma WrittenNext(f: Function, k: nat)
    requires FunctionOk(f) && k < |f.args|
    ensures Written(f, k + 1) == Written(f, k) + EncodeArg(f.args[k])
    ensures |Written(f, k)| + |EncodeArg(f.args[k])| <= |EncodeFunction(f)|
  {
    EncodeArgsNext(f.args, k);
    WrittenIs(f, k);
    WrittenIs(f, k + 1);
    hide *;
    Regroup([f.code, |f.args|], EncodeArgs(f.args[..k]), EncodeArg(f.args[k]));
  }

  lemma WrittenIs(f: Function, k: nat)
    requires FunctionOk(f) && k <= |f.args|
    ensures Written(f, k) == [f.code, |f.args|] + EncodeArgs(f.args[..k])
    ensures |EncodeFunction(f)| == 2 + |EncodeArgs(f.args)|
  {
  }

  lemma {:induction false} EncodeArgsNext(args: seq<Arg>, k: nat)
    requires ArgsOk(args) && k < |args|
    ensures EncodeArgs(args[..k + 1]) == EncodeArgs(args[..k]) + EncodeArg(args[k])
    ensures |EncodeArgs(args[..k])| + |EncodeArg(args[k])| <= |EncodeArgs(args)|
  {
    EncodeArgsAppend(args[..k], args[k]);
    assert args[..k + 1] == args[..k] + [args[k]];
    EncodeArgsPrefix(args, k + 1);
    hide EncodeArgs, EncodeArg;
  }

  lemma {:induction false} EncodeArgsPrefix(args: seq<Arg>, k: nat)
    requires ArgsOk(args) && k <= |args|
    ensures |EncodeArgs(args[..k])| <= |EncodeArgs(args)|
    decreases |args| - k
  {
    if k < |args| {
      EncodeArgsAppend(args[..k], args[k]);
      assert args[..k + 1] == args[..k] + [args[k]];
      EncodeArgsPrefix(args, k + 1);
    } else {
      assert args[..k] == args;
    }
    hide EncodeArgs, EncodeArg;
  }

  /** `message_encode`: what it writes, and how many bytes. */
  method EncodeMessage(m: Message, buffer: array<byte>, buffer_size: nat) returns (result: int)
    requires buffer_size <= buffer.Length && HeaderOk(m.header)
    requires m.header.kind in {MESSAGE_CALL, MESSAGE_FUNCTION_RET} ==> MessageOk(m)
    modifies buffer
    ensures buffer_size < HEADER + m.header.dataSize ==> result == -1 && buffer[..] == old(buffer[..])
    ensures buffer_size >= HEADER + m.header.dataSize ==>
              if m.header.kind in {MESSAGE_CALL, MESSAGE_FUNCTION_RET} then
                result == |Encode(m)| <= buffer.Length && buffer[..] == Splice(old(buffer[..]), 0, Encode(m))
              else
                && result == (if m.header.kind == MESSAGE_NEW_ULT then HEADER else -1)
                && buffer[..] == Splice(old(buffer[..]), 0, EncodeHeader(m.header))
    // byte by byte: the header, then a function (type 1) or a word (type 2) at offset 7
    ensures buffer_size >= 7 + m.header.dataSize ==>
              && HeaderAt(buffer[..], m.header)
              && (m.header.kind == 1 ==>
                    && m.body.Call? && FunctionAt(buffer[..], 7, m.body.fun)
                    && result == 9 + Taken(m.body.fun.args, |m.body.fun.args|))
              && (m.header.kind == 2 ==> m.body.Response? && WordAt(buffer[..], 7, m.body.word) && result == 11)
              && (m.header.kind == 3 ==> result == 7)
              && (m.header.kind !in {1, 2, 3} ==> result == -1)
  {
    ghost var was := buffer[..];
    if buffer_size < HEADER + m.header.dataSize {
      return -1;
    }
    result := PutHeader(m.header, buffer, buffer_size);
    var cursor := result;
    if m.header.kind == MESSAGE_CALL {
      SpliceMore(was, 0, EncodeHeader(m.header), EncodeBody(m.body));
      var n := PutFunction(m.body.fun, m.header.dataSize, buffer, cursor, buffer_size);
      result := result + n;
    } else if m.header.kind == MESSAGE_FUNCTION_RET {
      SpliceMore(was, 0, EncodeHeader(m.header), EncodeBody(m.body));
      CopyTo(buffer, cursor, EncodeWord(m.body.word));
      result := result + 4;
    } else if m.header.kind != MESSAGE_NEW_ULT {
      result := -1;
    }
    if m.header.kind in {MESSAGE_CALL, MESSAGE_FUNCTION_RET} {
      MessageLaid(m, buffer[..]);
    }
  }

  /** `header_decode`. */
  method GetHeader(buffer: seq<byte>, buffer_size: nat) returns (n: int, h: Header)
    requires buffer_size >= 1 ==> HEADER <= |buffer|
    ensures if buffer_size < 1 then n == -1 else n == HEADER && h == ParseHeader(buffer)
    ensures buffer_size >= 1 ==> n == 7 && HeaderAt(buffer, h)
  {
    h := Header(0, 0, 0);
    if buffer_size < 1 {
      return -1, h;
    }
    var cursor := 0;
    h := h.(kind := buffer[cursor]);
    cursor := cursor + 1;
    h := h.(caller := DecodeNumber(buffer[cursor..cursor + 2]));
    cursor := cursor + 2;
    h := h.(dataSize := DecodeWord(buffer[cursor..cursor + 4]));
    cursor := cursor + 4;
    HeaderRead(buffer);
    n := cursor;
  }

  /** `function_arg_decode` into an argument that has been cleared: -1 for an unknown type. */
  method GetArg(buffer: seq<byte>) returns (n: int, a: Arg)
    requires |buffer| >= 5 && (buffer[0] <= VAR_SIZE_T ==> ParseArg(buffer).Got?)
    ensures n == -1 <==> buffer[0] > VAR_SIZE_T
    ensures n != -1 ==> 0 <= n <= |buffer| && ParseArg(buffer) == Got(a, n)
    ensures n != -1 ==> ArgAt(buffer, 0, a) && n == 5 + a.size
  {
    var cursor := 0;
    a := Arg(buffer[cursor], 0, Number(0));
    cursor := cursor + 1;
    a := a.(size := DecodeWord(buffer[cursor..cursor + 4]));
    cursor := cursor + 4;
    if a.kind == VAR_UINT32 {
      a := a.(value := Number(DecodeNumber(buffer[cursor..cursor + a.size])));
    } else if a.kind == VAR_CHAR_PTR {
      a := a.(value := Data(buffer[cursor..cursor + a.size]));
    } else if a.kind == VAR_VOID_PTR {
      a := a.(value := Data(buffer[cursor..cursor + a.size]));
    } else if a.kind == VAR_SIZE_T {
      a := a.(value := Number(DecodeNumber(buffer[cursor..cursor + a.size])));
    } else {
      return -1, a;
    }
    cursor := cursor + a.size;
    ArgRead(buffer);
    n := cursor;
  }

  /** `message_function_decode`. */
  method GetFunction(buffer: seq<byte>) returns (n: nat, f: Function)
    requires ParseFunction(buffer).Got?
    ensures ParseFunction(buffer) == Got(f, n)
    ensures FunctionAt(buffer, 0, f) && n == 2 + Taken(f.args, |f.args|)
  {
    hide ParseArg, ParseArgs;
    var cursor := 0;
    var code := buffer[cursor];
    cursor := cursor + 1;
    var num_args := buffer[cursor];
    cursor := cursor + 1;
    var args: seq<Arg> := [];
    LeftAll(buffer, num_args);
    for nargs := 0 to num_args
      invariant |args| == nargs && 2 <= cursor
                && Left(buffer, cursor, num_args - nargs, args, ParseArgs(buffer[2..], num_args))
    {
      LeftNext(buffer, cursor, num_args - nargs, args, ParseArgs(buffer[2..], num_args));
      var m, a := GetArg(buffer[cursor..]);
      args := args + [a];
      cursor := cursor + m;
    }
    LeftDone(buffer, cursor, args, ParseArgs(buffer[2..], num_args));
    FunctionRead(buffer);
    n, f := cursor, Function(code, args);
  }

  /** `args` have been read; with the `n` arguments that are left they make up `all`. */
  ghost predicate Left(b: seq<byte>, cursor: nat, n: nat, args: seq<Arg>, all: Parsed<seq<Arg>>) {
    && 2 <= cursor <= |b| && ParseArgs(b[cursor..], n).Got?
    && all == Got(args + ParseArgs(b[cursor..], n).value, cursor - 2 + ParseArgs(b[cursor..], n).used)
  }

  lemma LeftAll(b: seq<byte>, n: nat)
    requires |b| >= 2 && ParseArgs(b[2..], n).Got?
    ensures Left(b, 2, n, [], ParseArgs(b[2..], n))
  {
    var all := ParseArgs(b[2..], n);
    assert [] + all.value == all.value;
    hide ParseArgs;
  }

  lemma LeftDone(b: seq<byte>, cursor: nat, args: seq<Arg>, all: Parsed<seq<Arg>>)
    requires Left(b, cursor, 0, args, all)
    ensures cursor <= |b| && all == Got(args, cursor - 2)
  {
    assert args + [] == args;
  }

  lemma LeftNext(b: seq<byte>, cursor: nat, n: nat, args: seq<Arg>, all: Parsed<seq<Arg>>)
    requires Left(b, cursor, n, args, all) && n > 0
    ensures cursor + 5 <= |b| && b[cursor] <= VAR_SIZE_T
    ensures var a := ParseArg(b[cursor..]); a.Got? && Left(b, cursor + a.used, n - 1, args + [a.value], all)
  {
    ParseArgsNext(b, cursor, n);
    var a := ParseArg(b[cursor..]);
    assert args + [a.value] + ParseArgs(b[cursor + a.used..], n - 1).value ==
      args + ([a.value] + ParseArgs(b[cursor + a.used..], n - 1).value);
    hide ParseArg, ParseArgs;
  }

  lemma ParseArgsNext(b: seq<byte>, cursor: nat, n: nat)
    requires cursor <= |b| && n > 0 && ParseArgs(b[cursor..], n).Got?
    ensures var a := ParseArg(b[cursor..]);
            && a.Got? && cursor + 5 <= |b| && b[cursor] <= VAR_SIZE_T && cursor + a.used <= |b|
            && var more := ParseArgs(b[cursor + a.used..], n - 1);
               more.Got? && ParseArgs(b[cursor..], n) == Got([a.value] + more.value, a.used + more.used)
  {
    var a := ParseArg(b[cursor..]);
    assert b[cursor..][a.used..] == b[cursor + a.used..];
  }

  /** `message_decode`: a message of an unknown type is refused. */
  method DecodeMessage(buffer: seq<byte>, buffer_size: nat) returns (res: int, m: Message)
    requires buffer_size >= 1 ==> |buffer| >= HEADER
    requires buffer_size >= 1 && ParseHeader(buffer).kind in {MESSAGE_CALL, MESSAGE_FUNCTION_RET} ==> Parse(buffer).Got?
    ensures buffer_size < 1 ==> res == -1
    ensures buffer_size >= 1 ==>
              var kind := ParseHeader(buffer).kind;
              if kind in {MESSAGE_CALL, MESSAGE_FUNCTION_RET} then res >= 0 && Parse(buffer) == Got(m, res)
              else res == if kind == MESSAGE_NEW_ULT then HEADER else -1
    ensures buffer_size >= 1 ==>
              && HeaderAt(buffer, m.header)
              && (buffer[0] == 1 ==>
                    && m.body.Call? && FunctionAt(buffer[7..], 0, m.body.fun)
                    && res == 9 + Taken(m.body.fun.args, |m.body.fun.args|))
              && (buffer[0] == 2 ==> m.body.Response? && WordAt(buffer, 7, m.body.word) && res == 11)
              && (buffer[0] == 3 ==> res == 7)
              && (buffer[0] !in {1, 2, 3} ==> res == -1)
  {
    m := Message(Header(0, 0, 0), Nothing);
    var header;
    res, header := GetHeader(buffer, buffer_size);
    if res == -1 {
      return;
    }
    m := m.(header := header);
    var cursor := res;
    if header.kind == MESSAGE_CALL {
      var n, f := GetFunction(buffer[cursor..]);
      m := m.(body := Call(f));
      res := res + n;
    } else if header.kind == MESSAGE_FUNCTION_RET {
      m := m.(body := Response(DecodeWord(buffer[cursor..cursor + 4])));
      res := res + 4;
    } else if header.kind != MESSAGE_NEW_ULT {
      res := -1;
    }
  }

  /** `send_message` and `message_decode` at the other end: the same message, and as many bytes
      taken as were sent. */
  method SendAndReceive(m: Message, rest: seq<byte>) returns (sent: int, received: int, m': Message)
    requires MessageOk(m)
    ensures m' == m && sent == received == HEADER + m.header.dataSize
  {
    var buffer := new byte[HEADER + m.header.dataSize](_ => 0);
    sent := EncodeMessage(m, buffer, buffer.Length);
    assert buffer[..] == Encode(m);
    RoundTrip(m, rest);
    received, m' := DecodeMessage(buffer[..] + rest, buffer.Length + |rest|);
  }

  /** `receive_packet_var`: the next message of the stream, header and data. */
  method ReceivePacket(stream: seq<byte>) returns (recv_bytes: nat, buffer: array<byte>)
    requires |stream| >= HEADER && |stream| >= FrameSize(stream)
    ensures fresh(buffer) && recv_bytes == buffer.Length <= |stream|
    ensures Split(stream) == [buffer[..]] + Split(stream[recv_bytes..])
    ensures recv_bytes == 7 + Four(stream[3], stream[4], stream[5], stream[6]) && buffer[..] == stream[..recv_bytes]
  {
    hide *;
    HeaderFirst(stream);
    HeaderSize(stream);
    SplitFirst(stream, FrameSize(stream));
    recv_bytes := HEADER;
    var _, header := GetHeader(stream[..HEADER], HEADER);
    buffer := new byte[header.dataSize + HEADER](_ => 0);
    ghost var was := buffer[..];
    var _ := PutHeader(header, buffer, buffer.Length);
    var cursor := recv_bytes;
    CopyTo(buffer, cursor, stream[cursor..cursor + header.dataSize]);
    recv_bytes := recv_bytes + header.dataSize;
    FrontCopied(stream, was, EncodeHeader(header), header.dataSize);
  }

  lemma HeaderFirst(b: seq<byte>)
    requires |b| >= HEADER
    ensures HEADER == 7 && ParseHeader(b[..7]) == ParseHeader(b)
    ensures var h := ParseHeader(b);
            && h.kind < 256 && h.caller < 0x1_0000 && h.dataSize < WORD
            && HeaderOk(h) && EncodeHeader(h) == b[..7]
  {
    HeaderCanonical(b);
    assert b[..7][1..3] == b[1..3] && b[..7][3..7] == b[3..7];
  }

  lemma HeaderSize(b: seq<byte>)
    requires |b| >= HEADER
    ensures FrameSize(b) == 7 + ParseHeader(b).dataSize && ParseHeader(b).dataSize == Four(b[3], b[4], b[5], b[6])
  {
    HeaderRead(b);
  }

  lemma SplitFirst(b: seq<byte>, n: nat)
    requires HEADER <= |b| && n == FrameSize(b) <= |b|
    ensures Split(b) == [b[..n]] + Split(b[n..])
  {
    hide FrameSize;
  }

  lemma FrontCopied(stream: seq<byte>, was: seq<byte>, head: seq<byte>, n: nat)
    requires |was| == 7 + n <= |stream| && head == stream[..7]
    ensures Splice(Splice(was, 0, head), 7, stream[7..7 + n]) == stream[..7 + n]
  {
  }
}
