/** Messages between the mount client and the daemon: a header that begins with the size of the whole, and data. */
module Messages {
  import opened Bytes

  const SIZE_SIZE := 4
  const SEQUENCE_INDEX := 4
  const REQUEST_TYPE_INDEX := 8
  const STATUS_CODE_INDEX := 9
  const HEADER_SIZE := 16

  const WORD32 := 0x1_0000_0000
  const NONE: byte := 1
  const MOUNT: byte := 2
  const OK: byte := 1

  /** The value read and the index behind it, or the exception of a message that is too short. */
  datatype Reading<T> = Read(value: T, next: nat) | Truncated

  /** A vector after a resize: cut off, or filled up with zeros. */
  function Resized(s: seq<byte>, n: nat): (r: seq<byte>)
    ensures |r| == n
  {
    if n <= |s| then s[..n] else s + seq(n - |s|, _ => 0)
  }

  /** `s` with `part` in place of what was at `at`. */
  function Pasted(s: seq<byte>, at: nat, part: seq<byte>): (r: seq<byte>)
    requires at + |part| <= |s|
    ensures |r| == |s|
  {
    s[..at] + part + s[at + |part|..]
  }

  /** What `body` becomes when `part` is written at `at`; it grows if that is needed. */
  function Written(body: seq<byte>, at: nat, part: seq<byte>): (r: seq<byte>) {
    var grown := if at + |part| <= |body| then body else Resized(body, at + |part|);
    Pasted(grown, at, part)
  }

  lemma WrittenAtEnd(body: seq<byte>, part: seq<byte>)
    ensures Written(body, |body|, part) == body + part
  {}

  /** Two writes behind each other. */
  lemma WrittenOn(body: seq<byte>, at: nat, a: seq<byte>, c: seq<byte>)
    ensures Written(Written(body, at, a), at + |a|, c) == Written(body, at, a + c)
  {}

  /** What reading `n` bytes as a number from a message's data gives. */
  function ParseInt(body: seq<byte>, idx: nat, n: nat): Reading<nat> {
    if idx + n > |body| then Truncated else Read(Number(body[idx..idx + n]), idx + n)
  }

  function ParseString(body: seq<byte>, idx: nat): Reading<seq<byte>> {
    match ParseInt(body, idx, SIZE_SIZE)
    case Truncated => Truncated
    case Read(size, next) => if next + size > |body| then Truncated else Read(body[next..next + size], next + size)
  }

  lemma PastedBehindHeader(data: seq<byte>, idx: nat, part: seq<byte>)
    requires HEADER_SIZE + idx + |part| <= |data|
    ensures Pasted(data, HEADER_SIZE + idx, part)[HEADER_SIZE..] == Pasted(data[HEADER_SIZE..], idx, part)
    ensures Pasted(data, HEADER_SIZE + idx, part)[..HEADER_SIZE] == data[..HEADER_SIZE]
    ensures Pasted(data, HEADER_SIZE + idx, part)[..SIZE_SIZE] == data[..SIZE_SIZE]
    ensures Pasted(data, HEADER_SIZE + idx, part)[SIZE_SIZE..HEADER_SIZE] == data[SIZE_SIZE..HEADER_SIZE]
  {}

  /** `start` with the first `i` bytes of `part` pasted in. */
  function PastedTo(start: seq<byte>, at: nat, part: seq<byte>, i: nat): (r: seq<byte>)
    requires at + |part| <= |start| && i <= |part|
    ensures |r| == |start|
  {
    start[..at] + part[..i] + start[at + i..]
  }

  lemma PasteStarts(start: seq<byte>, at: nat, part: seq<byte>)
    requires at + |part| <= |start|
    ensures PastedTo(start, at, part, 0) == start
  {
    assert start == start[..at] + part[..0] + start[at..];
  }

  lemma PasteEnds(start: seq<byte>, at: nat, part: seq<byte>)
    requires at + |part| <= |start|
    ensures PastedTo(start, at, part, |part|) == Pasted(start, at, part)
  {
    assert part[..|part|] == part;
  }

  lemma PasteByte(start: seq<byte>, at: nat, part: seq<byte>, i: nat)
    requires at + |part| <= |start| && i < |part|
    ensures PastedTo(start, at, part, i)[at + i := part[i]] == PastedTo(start, at, part, i + 1)
  {
    assert part[..i + 1] == part[..i] + [part[i]];
    assert start[at + i..] == [start[at + i]] + start[at + i + 1..];
  }

  class Message {
    /** The size of the message with its header. */
    var messageSize: nat
    var data: seq<byte>
    /** How many bytes have arrived so far. */
    var dataPresent: nat

    /** The size bytes match the buffer. */
    ghost predicate Valid()
      reads this
    {
      |data| == messageSize >= HEADER_SIZE && data[..SIZE_SIZE] == Digits(messageSize, SIZE_SIZE)
    }

    ghost function Body(): seq<byte>
      reads this
      requires Valid()
    {
      data[HEADER_SIZE..]
    }

    /** The header behind the size. */
    ghost function Header(): seq<byte>
      reads this
      requires |data| >= HEADER_SIZE
    {
      data[SIZE_SIZE..HEADER_SIZE]
    }

    constructor ()
      ensures |data| == HEADER_SIZE && messageSize == 0 && dataPresent == 0
      ensures data == [0, 0, 0, 0, 0, 0, 0, 0, 1, 1, 0, 0, 0, 0, 0, 0]
    {
      messageSize, dataPresent := 0, 0;
      data := (seq(REQUEST_TYPE_INDEX, _ => 0)) + [NONE, OK] + (seq(6, _ => 0));
    }

    // ---- Sizes ----

    /** Takes in the next byte of the size. */
    method AddNextSizeByte(size: byte)
      requires dataPresent < |data|
      modifies this
      ensures data == old(data)[old(dataPresent) := size] && dataPresent == old(dataPresent) + 1
      ensures messageSize == old(messageSize) * 256 + size
      ensures old(messageSize == Number(data[..dataPresent])) ==> messageSize == Number(data[..dataPresent])
    {
      assert data[dataPresent := size][..dataPresent + 1] == data[..dataPresent] + [size];
      data := data[dataPresent := size];
      messageSize := messageSize * 256 + size;
      dataPresent := dataPresent + 1;
    }

    method SetDataSize(size: nat)
      modifies this`messageSize, this`data
      ensures messageSize == size + HEADER_SIZE
      ensures data == Pasted(Resized(old(data), messageSize), 0, Digits(messageSize, SIZE_SIZE)) && Valid()
    {
      hide Digits, Power, Resized;
      messageSize := size + HEADER_SIZE;
      data := Resized(data, messageSize);
      ghost var start := data;
      var i := 0;
      while i < SIZE_SIZE
        invariant i <= SIZE_SIZE && |data| == |start| == messageSize
        invariant data == start[..0] + Digits(messageSize, SIZE_SIZE)[..i] + start[0 + i..]
      {
        DigitAt(messageSize, SIZE_SIZE, i);
        PasteByte(start, 0, Digits(messageSize, SIZE_SIZE), i);
        var digit: byte := messageSize / Power(SIZE_SIZE - i - 1) % 256;
        data := data[i := digit];
        i := i + 1;
      }
    }

    /** Grows the data if the new size is above the current one. */
    method SetDataSizeAtLeast(newSize: nat)
      requires Valid()
      modifies this`messageSize, this`data
      ensures Valid() && Header() == old(Header())
      ensures Body() == if newSize <= |old(Body())| then old(Body()) else Resized(old(Body()), newSize)
    {
      if HEADER_SIZE + newSize <= messageSize { return; }
      SetDataSize(newSize);
    }

    /** Copies as much as is still missing. */
    method Fill(buf: seq<byte>) returns (full: bool)
      requires dataPresent <= messageSize <= |data|
      modifies this
      ensures messageSize == old(messageSize)
      ensures var n := if |buf| < messageSize - old(dataPresent) then |buf| else messageSize - old(dataPresent);
              dataPresent == old(dataPresent) + n && data == Pasted(old(data), old(dataPresent), buf[..n])
      ensures full <==> dataPresent == messageSize
    {
      var n := if messageSize - dataPresent < |buf| then messageSize - dataPresent else |buf|;
      data := data[..dataPresent] + buf[..n] + data[dataPresent + n..];
      dataPresent := dataPresent + n;
      full := dataPresent == messageSize;
    }

    // ---- Header fields ----

    method SetSequence(sequence: nat)
      requires |data| >= HEADER_SIZE
      modifies this`data
      ensures data == Pasted(old(data), SEQUENCE_INDEX, Digits(sequence, 4))
      ensures old(Valid()) ==> Valid() && Body() == old(Body())
    {
      ghost var was := data;
      data := Pasted(data, SEQUENCE_INDEX, Digits(sequence, 4));
      assert data[..SIZE_SIZE] == was[..SIZE_SIZE] && data[HEADER_SIZE..] == was[HEADER_SIZE..];
    }

    method SetType(requestType: byte)
      requires |data| >= HEADER_SIZE
      modifies this`data
      ensures data == old(data)[REQUEST_TYPE_INDEX := requestType]
      ensures old(Valid()) ==> Valid() && Body() == old(Body())
    {
      ghost var was := data;
      data := data[REQUEST_TYPE_INDEX := requestType];
      assert data[..SIZE_SIZE] == was[..SIZE_SIZE] && data[HEADER_SIZE..] == was[HEADER_SIZE..];
    }

    method SetStatus(status: byte)
      requires |data| >= HEADER_SIZE
      modifies this`data
      ensures data == old(data)[STATUS_CODE_INDEX := status]
      ensures old(Valid()) ==> Valid() && Body() == old(Body())
    {
      ghost var was := data;
      data := data[STATUS_CODE_INDEX := status];
      assert data[..SIZE_SIZE] == was[..SIZE_SIZE] && data[HEADER_SIZE..] == was[HEADER_SIZE..];
    }

    // ---- Data ----

    /** Writes a number of `n` bytes. */
    method WriteInt(idx: nat, value: nat, n: nat) returns (next: nat)
      requires Valid()
      modifies this`messageSize, this`data
      ensures Valid() && Header() == old(Header()) && next == idx + n
      ensures Body() == Written(old(Body()), idx, Digits(value, n))
    {
      hide Digits, Power, PastedTo;
      SetDataSizeAtLeast(idx + n);
      ghost var start := data;
      var i := 0;
      PasteStarts(start, HEADER_SIZE + idx, Digits(value, n));
      while i < n
        invariant i <= n && |data| == |start| == messageSize
        invariant data == PastedTo(start, HEADER_SIZE + idx, Digits(value, n), i)
      {
        DigitAt(value, n, i);
        PasteByte(start, HEADER_SIZE + idx, Digits(value, n), i);
        var digit: byte := value / Power(n - i - 1) % 256;
        data := data[HEADER_SIZE + idx + i := digit];
        i := i + 1;
      }
      PasteEnds(start, HEADER_SIZE + idx, Digits(value, n));
      PastedBehindHeader(start, idx, Digits(value, n));
      next := idx + n;
    }

    /** Writes a string behind its length, of which the low four bytes count. */
    method WriteString(idx: nat, str: seq<byte>) returns (next: nat)
      requires Valid()
      modifies this`messageSize, this`data
      ensures Valid() && Header() == old(Header())
      ensures var size := |str| % WORD32;
              next == idx + SIZE_SIZE + size
              && Body() == Written(old(Body()), idx, Digits(size, SIZE_SIZE) + str[..size])
    {
      hide Digits;
      var size := |str| % WORD32;
      next := WriteInt(idx, size, SIZE_SIZE);
      WrittenOn(old(Body()), idx, Digits(size, SIZE_SIZE), str[..size]);
      SetDataSizeAtLeast(next + size);
      PastedBehindHeader(data, next, str[..size]);
      data := Pasted(data, HEADER_SIZE + next, str[..size]);
      next := next + size;
    }

    method ReadInt(idx: nat, n: nat) returns (r: Reading<nat>)
      requires Valid()
      ensures r == ParseInt(Body(), idx, n)
    {
      if HEADER_SIZE + idx + n > messageSize { return Truncated; }
      ghost var part := Body()[idx..idx + n];
      var value: nat := 0;
      var i := 0;
      while i < n
        invariant i <= n && value == Number(part[..i])
      {
        assert part[..i + 1][..i] == part[..i];
        value := value * 256 + data[HEADER_SIZE + idx + i];
        i := i + 1;
      }
      assert part[..n] == part;
      r := Read(value, idx + n);
    }

    method ReadString(idx: nat) returns (r: Reading<seq<byte>>)
      requires Valid()
      ensures r == ParseString(Body(), idx)
    {
      var size := ReadInt(idx, SIZE_SIZE);
      if size.Truncated? { return Truncated; }
      if HEADER_SIZE + size.next + size.value > messageSize { return Truncated; }
      assert data[HEADER_SIZE + size.next..HEADER_SIZE + size.next + size.value]
          == Body()[size.next..size.next + size.value];
      r := Read(data[HEADER_SIZE + size.next..HEADER_SIZE + size.next + size.value], size.next + size.value);
    }
  }
}
