/** Mount requests: what the client writes into a message and the daemon reads from it. */
module MountRequests {
  import opened Bytes
  import opened Messages
  import opened Pieces
  import IO = MessageIO

  datatype MountRequest = MountRequest(rootName: seq<byte>, mountPoint: seq<byte>, fuseArgs: seq<seq<byte>>)

  function StringBytes(s: seq<byte>): seq<byte> {
    Digits(|s|, SIZE_SIZE) + s
  }

  function ArgsBytes(args: seq<seq<byte>>): seq<byte> {
    if args == [] then [] else ArgsBytes(args[..|args| - 1]) + StringBytes(args[|args| - 1])
  }

  /** A mount request as the data of a message. */
  function Payload(m: MountRequest): seq<byte> {
    StringBytes(m.rootName) + StringBytes(m.mountPoint) + Digits(|m.fuseArgs|, SIZE_SIZE) + ArgsBytes(m.fuseArgs)
  }

  /** The whole message, header included, has a size of 32 bits. */
  predicate Fits(m: MountRequest) {
    HEADER_SIZE + |Payload(m)| < WORD32
  }

  function ParseArgs(body: seq<byte>, idx: nat, n: nat): Reading<seq<seq<byte>>> {
    if n == 0 then Read([], idx)
    else
      match ParseArgs(body, idx, n - 1)
      case Truncated => Truncated
      case Read(args, next) =>
        match ParseString(body, next)
        case Truncated => Truncated
        case Read(arg, end) => Read(args + [arg], end)
  }

  function ParseMount(body: seq<byte>): Reading<MountRequest> {
    match ParseString(body, 0)
    case Truncated => Truncated
    case Read(rootName, i1) =>
      match ParseString(body, i1)
      case Truncated => Truncated
      case Read(mountPoint, i2) =>
        match ParseInt(body, i2, SIZE_SIZE)
        case Truncated => Truncated
        case Read(n, i3) =>
          match ParseArgs(body, i3, n)
          case Truncated => Truncated
          case Read(args, end) => Read(MountRequest(rootName, mountPoint, args), end)
  }

  lemma ArgsNone()
    ensures ArgsBytes([]) == []
  {}

  lemma ArgsStep(args: seq<seq<byte>>, i: nat)
    requires i < |args|
    ensures ArgsBytes(args[..i + 1]) == ArgsBytes(args[..i]) + StringBytes(args[i])
  {
    assert args[..i + 1][..i] == args[..i];
  }

  // ---- Sizes ----

  lemma {:induction false} ArgsFit(args: seq<seq<byte>>)
    ensures |ArgsBytes(args)| >= SIZE_SIZE * |args|
    ensures forall i :: 0 <= i < |args| ==> |args[i]| + SIZE_SIZE <= |ArgsBytes(args)|
    decreases |args|
  {
    hide Digits;
    if args != [] {
      var n := |args| - 1;
      ArgsFit(args[..n]);
      forall i | 0 <= i < |args| ensures |args[i]| + SIZE_SIZE <= |ArgsBytes(args)| {
        assert i < n ==> args[..n][i] == args[i];
      }
    }
  }

  /** In a request that fits, every length and the number of arguments are numbers of 32 bits. */
  lemma FitsParts(m: MountRequest)
    requires Fits(m)
    ensures |m.rootName| < WORD32 && |m.mountPoint| < WORD32 && |m.fuseArgs| < WORD32
    ensures forall i :: 0 <= i < |m.fuseArgs| ==> |m.fuseArgs[i]| < WORD32
  {
    hide Digits;
    ArgsFit(m.fuseArgs);
  }

  // ---- The encoder ----

  /** The number of arguments as 32 bits hold it. */
  function CountWritten(args: seq<seq<byte>>): (n: nat)
    ensures n <= |args| && n < WORD32 && (|args| < WORD32 ==> n == |args|)
  {
    |args| % WORD32
  }

  lemma FourDigits(n: nat)
    requires n < WORD32
    ensures Digits(n, 4) == [n / 0x100_0000, n / 0x1_0000 % 256, n / 256 % 256, n % 256]
  {
    DigitAt(n, 4, 0);
    DigitAt(n, 4, 1);
    DigitAt(n, 4, 2);
    DigitAt(n, 4, 3);
  }

  /** A mount request without data. */
  method NewRequest() returns (msg: Message)
    ensures fresh(msg) && msg.Valid() && msg.dataPresent == 0 && msg.Body() == []
    ensures msg.Header() == [0, 0, 0, 0, 2, 1, 0, 0, 0, 0, 0, 0]
  {
    hide Digits, Pasted, Resized;
    msg := new Message();
    FourDigits(0);
    NewHeader(msg.data, Digits(16, SIZE_SIZE));
    msg.SetDataSize(0);
    msg.SetSequence(0);
    msg.SetType(MOUNT);
    msg.SetStatus(OK);
  }

  lemma NewHeader(start: seq<byte>, size: seq<byte>)
    requires |size| == 4 && start == [0, 0, 0, 0, 0, 0, 0, 0, 1, 1, 0, 0, 0, 0, 0, 0]
    ensures var data := Pasted(Pasted(Resized(start, 16), 0, size), 4, [0, 0, 0, 0])[8 := 2][9 := 1];
            && data[4..16] == [0, 0, 0, 0, 2, 1, 0, 0, 0, 0, 0, 0] && data[16..] == []
  {
    hide Pasted;
    assert Resized(start, 16) == start;
    var sized := Pasted(start, 0, size);
    PastedBehind(start, 0, size);
    PastedBehind(sized, 4, [0, 0, 0, 0]);
    assert sized[8..] == sized[4..][4..] == start[4..][4..] == [1, 1, 0, 0, 0, 0, 0, 0];
  }

  lemma PastedBehind(s: seq<byte>, at: nat, part: seq<byte>)
    requires at + |part| <= |s|
    ensures Pasted(s, at, part)[at..] == part + s[at + |part|..]
    ensures Pasted(s, at, part)[at + |part|..] == s[at + |part|..]
  {}

  lemma SizeOf(m: MountRequest, msg: seq<byte>)
    requires Fits(m) && HEADER_SIZE <= |msg| && msg[HEADER_SIZE..] == Payload(m)
    ensures |msg| == 16 + |Payload(m)| < WORD32
  {}

  method Encode(m: MountRequest) returns (msg: Message)
    ensures fresh(msg) && msg.Valid() && msg.dataPresent == 0
    ensures Fits(m) ==> msg.Body() == Payload(m)
    ensures msg.Header() == [0, 0, 0, 0, 2, 1, 0, 0, 0, 0, 0, 0]
    ensures Fits(m) ==>
      var n := 16 + |Payload(m)|; msg.data[..4] == [n / 0x100_0000, n / 0x1_0000 % 256, n / 256 % 256, n % 256]
  {
    hide Digits, Written, ArgsBytes, StringBytes, Fits, Payload, CountWritten;
    msg := NewRequest();
    ghost var header := msg.Header();
    if Fits(m) { FitsParts(m); }

    var idx := 0;
    idx := Append(msg, idx, m.rootName);
    idx := Append(msg, idx, m.mountPoint);
    var n := CountWritten(m.fuseArgs);
    WrittenAtEnd(msg.Body(), Digits(n, SIZE_SIZE));
    idx := msg.WriteInt(idx, n, SIZE_SIZE);
    ghost var start := msg.Body();
    ArgsNone();
    assert m.fuseArgs[..0] == [];
    for i := 0 to n
      invariant fresh(msg) && msg.Valid() && msg.dataPresent == 0 && msg.Header() == header && idx == |msg.Body()|
      invariant Fits(m) ==> msg.Body() == start + ArgsBytes(m.fuseArgs[..i])
    {
      idx := Append(msg, idx, m.fuseArgs[i]);
      ArgsStep(m.fuseArgs, i);
    }
    if Fits(m) {
      assert m.fuseArgs[..n] == m.fuseArgs;
      PayloadIs(m);
      SizeOf(m, msg.data);
      FourDigits(msg.messageSize);
    }
  }

  lemma PayloadIs(m: MountRequest)
    ensures [] + StringBytes(m.rootName) + StringBytes(m.mountPoint) + Digits(|m.fuseArgs|, SIZE_SIZE)
            + ArgsBytes(m.fuseArgs) == Payload(m)
  {
    hide Digits, StringBytes, ArgsBytes;
    assert [] + StringBytes(m.rootName) == StringBytes(m.rootName);
  }

  /** Writes a string at the end of a message. */
  method Append(msg: Message, idx: nat, s: seq<byte>) returns (next: nat)
    requires msg.Valid() && idx == |msg.Body()|
    modifies msg`messageSize, msg`data
    ensures msg.Valid() && msg.Header() == old(msg.Header()) && next == |msg.Body()|
    ensures |s| < WORD32 ==> msg.Body() == old(msg.Body()) + StringBytes(s)
  {
    hide Digits, Written;
    var size := |s| % WORD32;
    assert |s| < WORD32 ==> s[..size] == s;
    WrittenAtEnd(msg.Body(), Digits(size, SIZE_SIZE) + s[..size]);
    next := msg.WriteString(idx, s);
  }

  // ---- The decoder ----

  method Decode(msg: Message) returns (r: Reading<MountRequest>)
    requires msg.Valid()
    ensures r == ParseMount(msg.Body())
  {
    hide ParseInt, ParseString;
    var rootName := msg.ReadString(0);
    if rootName.Truncated? { return Truncated; }
    var mountPoint := msg.ReadString(rootName.next);
    if mountPoint.Truncated? { return Truncated; }
    var n := msg.ReadInt(mountPoint.next, SIZE_SIZE);
    if n.Truncated? { return Truncated; }
    var fuseArgs: seq<seq<byte>>, idx := [], n.next;
    for i := 0 to n.value
      invariant ParseArgs(msg.Body(), n.next, i) == Read(fuseArgs, idx)
    {
      var arg := msg.ReadString(idx);
      if arg.Truncated? {
        MissingArg(msg.Body(), n.next, i + 1, n.value);
        return Truncated;
      }
      fuseArgs, idx := fuseArgs + [arg.value], arg.next;
    }
    r := Read(MountRequest(rootName.value, mountPoint.value, fuseArgs), idx);
  }

  lemma {:induction false} MissingArg(body: seq<byte>, idx: nat, i: nat, n: nat)
    requires i <= n && ParseArgs(body, idx, i).Truncated?
    ensures ParseArgs(body, idx, n).Truncated?
    decreases n
  {
    if i < n {
      MissingArg(body, idx, i, n - 1);
    }
  }

  // ---- The decoder undoes the encoder ----

  lemma ParseWrittenInt(pre: seq<byte>, value: nat, post: seq<byte>)
    requires value < WORD32
    ensures ParseInt(pre + Digits(value, SIZE_SIZE) + post, |pre|, SIZE_SIZE) == Read(value, |pre| + SIZE_SIZE)
  {
    hide Digits, Number;
    var body := pre + Digits(value, SIZE_SIZE) + post;
    assert body[|pre|..|pre| + SIZE_SIZE] == Digits(value, SIZE_SIZE);
    FourBytes();
    NumberOfDigits(value, SIZE_SIZE);
  }

  lemma FourBytes()
    ensures Power(SIZE_SIZE) == WORD32
  {
    assert Power(1) == 256 && Power(2) == 0x10000 && Power(3) == 0x1000000;
  }

  lemma ParseWrittenString(pre: seq<byte>, s: seq<byte>, post: seq<byte>)
    requires |s| < WORD32
    ensures ParseString(pre + StringBytes(s) + post, |pre|) == Read(s, |pre| + |StringBytes(s)|)
  {
    hide Digits, ParseInt;
    var body := pre + StringBytes(s) + post;
    assert body == pre + Digits(|s|, SIZE_SIZE) + (s + post);
    ParseWrittenInt(pre, |s|, s + post);
    assert body[|pre| + SIZE_SIZE..|pre| + SIZE_SIZE + |s|] == s;
  }

  lemma {:induction false} ParseWrittenArgs(pre: seq<byte>, args: seq<seq<byte>>, post: seq<byte>)
    requires forall i :: 0 <= i < |args| ==> |args[i]| < WORD32
    ensures ParseArgs(pre + ArgsBytes(args) + post, |pre|, |args|) == Read(args, |pre| + |ArgsBytes(args)|)
    decreases |args|
  {
    hide StringBytes, ParseString, ArgsBytes;
    if args == [] {
      ArgsNone();
    } else {
      var n := |args| - 1;
      var before, last := ArgsBytes(args[..n]), StringBytes(args[n]);
      ParseWrittenArgs(pre, args[..n], last + post);
      ParseWrittenString(pre + before, args[n], post);
      assert args[..n + 1] == args;
      ArgsStep(args, n);
      assert pre + before + (last + post) == pre + (before + last) + post;
      assert pre + before + last + post == pre + (before + last) + post;
      assert args[..n] + [args[n]] == args;
    }
  }

  /** Decoding what was encoded gives the request back, and ends at the data's end. */
  lemma MountRoundTrip(m: MountRequest)
    requires Fits(m)
    ensures ParseMount(Payload(m)) == Read(m, |Payload(m)|)
  {
    hide StringBytes, ParseString, ParseInt, ParseArgs, Digits, ArgsBytes;
    FitsParts(m);
    var a, b := StringBytes(m.rootName), StringBytes(m.mountPoint);
    var n, args := Digits(|m.fuseArgs|, SIZE_SIZE), ArgsBytes(m.fuseArgs);
    var body := Payload(m);
    ParseWrittenString([], m.rootName, b + n + args);
    assert [] + a + (b + n + args) == body;
    ParseWrittenString(a, m.mountPoint, n + args);
    assert a + b + (n + args) == body;
    ParseWrittenInt(a + b, |m.fuseArgs|, args);
    assert a + b + n + args == body;
    ParseWrittenArgs(a + b + n, m.fuseArgs, []);
    assert a + b + n + args + [] == body;
  }

  /** Nothing else decodes to the same request: what was read is exactly the encoding. */
  lemma MountCanonical(body: seq<byte>, m: MountRequest, end: nat)
    requires ParseMount(body) == Read(m, end)
    ensures end <= |body| && body[..end] == Payload(m)
  {
    hide ParseString, ParseInt, ParseArgs, StringBytes, ArgsBytes, Digits;
    var i1 := ParseString(body, 0).next;
    StringRead(body, 0);
    StringRead(body, i1);
    var i2 := ParseString(body, i1).next;
    IntRead(body, i2);
    ArgsRead(body, ParseInt(body, i2, SIZE_SIZE).next, ParseInt(body, i2, SIZE_SIZE).value);
    var i3 := i2 + SIZE_SIZE;
    assert body[..end] == body[0..i1] + body[i1..i2] + body[i2..i3] + body[i3..end];
  }

  lemma IntRead(body: seq<byte>, idx: nat)
    requires ParseInt(body, idx, SIZE_SIZE).Read?
    ensures var r := ParseInt(body, idx, SIZE_SIZE);
            && r.next == idx + SIZE_SIZE <= |body| && r.value < WORD32
            && body[idx..r.next] == Digits(r.value, SIZE_SIZE)
  {
    FourBytes();
    NumberFits(body[idx..idx + SIZE_SIZE]);
    DigitsOfNumber(body[idx..idx + SIZE_SIZE]);
  }

  lemma StringRead(body: seq<byte>, idx: nat)
    requires ParseString(body, idx).Read?
    ensures var r := ParseString(body, idx);
            idx <= r.next <= |body| && body[idx..r.next] == StringBytes(r.value)
  {
    IntRead(body, idx);
    var r := ParseString(body, idx);
    assert body[idx..r.next] == body[idx..idx + SIZE_SIZE] + body[idx + SIZE_SIZE..r.next];
  }

  lemma {:induction false} ArgsRead(body: seq<byte>, idx: nat, n: nat)
    requires idx <= |body| && ParseArgs(body, idx, n).Read?
    ensures var r := ParseArgs(body, idx, n);
            |r.value| == n && idx <= r.next <= |body| && body[idx..r.next] == ArgsBytes(r.value)
    decreases n
  {
    hide ParseString, StringBytes;
    if n > 0 {
      ArgsRead(body, idx, n - 1);
      var mid, r := ParseArgs(body, idx, n - 1), ParseArgs(body, idx, n);
      StringRead(body, mid.next);
      assert r.value[..n - 1] == mid.value;
      assert body[idx..r.next] == body[idx..mid.next] + body[mid.next..r.next];
    }
  }

  /** A request that is sent, cut into pieces in any way, put together and decoded arrives as it was. */
  method Exchange(m: MountRequest, cut: seq<byte> -> seq<seq<byte>>) returns (r: Reading<MountRequest>)
    requires Fits(m) && forall bytes :: Joined(cut(bytes)) == bytes
    ensures r == Read(m, |Payload(m)|)
  {
    hide Payload, ParseMount, Digits;
    var msg := Encode(m);
    IO.ValidIsMessage(msg);
    ghost var sent := msg.data;
    var delivered, used, arrived := IO.Receive(cut(msg.data), msg.data);
    MountRoundTrip(m);
    r := Decode(arrived);
  }
}
