/** Putting messages together from whatever pieces of them arrive. */
module MessageIO {
  import opened Bytes
  import opened Messages
  import opened Pieces

  /** The bytes of a message as they are sent: with a header, which begins with the size of the whole. */
  ghost predicate IsMessage(bytes: seq<byte>) {
    HEADER_SIZE <= |bytes| < WORD32 && Number(bytes[..SIZE_SIZE]) == |bytes|
  }

  /** Any message whose size fits 32 bits can be sent. */
  lemma ValidIsMessage(msg: Message)
    requires msg.Valid() && |msg.data| < WORD32
    ensures IsMessage(msg.data)
  {
    assert Power(1) == 256 && Power(2) == 0x10000 && Power(3) == 0x1000000 && Power(SIZE_SIZE) == WORD32;
    NumberOfDigits(msg.messageSize, SIZE_SIZE);
  }

  /** Writing the size into the buffer again changes none of the bytes that arrived. */
  lemma SizeRewritten(data: seq<byte>, got: seq<byte>, whole: seq<byte>)
    requires IsMessage(whole) && got <= whole && SIZE_SIZE <= |got| <= |data| && data[..|got|] == got
    ensures var data' := Pasted(Resized(data, |whole|), 0, Digits(|whole|, SIZE_SIZE)); data'[..|got|] == got
  {
    hide Digits, Number;
    DigitsOfNumber(whole[..SIZE_SIZE]);
    var digits, sized := Digits(|whole|, SIZE_SIZE), Resized(data, |whole|);
    assert sized[..|got|] == got && got[..SIZE_SIZE] == digits;
    assert Pasted(sized, 0, digits)[..|got|] == digits + sized[SIZE_SIZE..|got|] == got[..SIZE_SIZE] + got[SIZE_SIZE..];
  }

  /** The size is what the first bytes say, whether they arrived just now or before. */
  lemma SizeArrived(got: seq<byte>, now: seq<byte>, whole: seq<byte>)
    requires IsMessage(whole) && got <= now <= whole && SIZE_SIZE <= |now|
    ensures |now| == SIZE_SIZE ==> Number(now) == |whole|
    ensures |got| >= SIZE_SIZE ==> Number(got[..SIZE_SIZE]) == |whole|
  {
    assert |now| == SIZE_SIZE ==> now == whole[..SIZE_SIZE];
    assert |got| >= SIZE_SIZE ==> got[..SIZE_SIZE] == whole[..SIZE_SIZE];
  }

  lemma FilledOn(data: seq<byte>, now: seq<byte>, rest: seq<byte>, n: nat)
    requires |now| + n <= |data| && n <= |rest| && data[..|now|] == now
    ensures Pasted(data, |now|, rest[..n])[..|now| + n] == now + rest[..n]
  {}

  /** The next byte is added to what has arrived, and to the number it makes. */
  lemma OneByteMore(data: seq<byte>, got: seq<byte>, buf: seq<byte>, i: nat)
    requires i < |buf| && |got| + i < |data| && data[..|got| + i] == got + buf[..i]
    ensures data[|got| + i := buf[i]][..|got| + i + 1] == got + buf[..i + 1]
    ensures Number(got + buf[..i + 1]) == Number(got + buf[..i]) * 256 + buf[i]
  {
    hide Number;
    assert buf[..i + 1] == buf[..i] + [buf[i]];
    assert got + buf[..i + 1] == got + buf[..i] + [buf[i]];
    assert data[|got| + i := buf[i]][..|got| + i + 1] == data[..|got| + i] + [buf[i]];
    OneDigitMore(got + buf[..i], buf[i]);
  }

  lemma OneDigitMore(s: seq<byte>, b: byte)
    ensures Number(s + [b]) == Number(s) * 256 + b
  {
    assert (s + [b])[..|s|] == s;
  }

  function Least(a: nat, b: nat): nat {
    if a < b then a else b
  }

  /** A stream on which a message is awaited. */
  class Reader {
    const message: Message
    /** Whether the stream is still read from. */
    var reading: bool
    /** The buffers handed to the callback. */
    var delivered: seq<seq<byte>>

    constructor ()
      ensures fresh(message) && reading && delivered == [] && Awaits([])
    {
      message := new Message();
      reading, delivered := true, [];
    }

    /** The bytes `got` have arrived, and they are not a whole message yet. */
    ghost predicate Awaits(got: seq<byte>)
      reads this, message
    {
      && message.dataPresent == |got| <= |message.data| && message.data[..|got|] == got
      && (if |got| < SIZE_SIZE then
            |message.data| == HEADER_SIZE && message.messageSize == Number(got)
          else
            |got| < message.messageSize == |message.data| && message.messageSize == Number(got[..SIZE_SIZE]))
    }

    /**
     Some more bytes of the stream arrive. `got` arrived before; together they are part of the message `whole`, or go
     beyond it.
     */
    method OnRead(buf: seq<byte>, ghost got: seq<byte>, ghost whole: seq<byte>)
      requires reading && IsMessage(whole) && |got| < |whole| && got == whole[..|got|] && Awaits(got)
      requires whole <= got + buf || got + buf <= whole
      modifies this, message
      ensures |got| + |buf| < |whole| ==> reading && delivered == old(delivered) && Awaits(got + buf)
      ensures |got| + |buf| >= |whole| ==> !reading && delivered == old(delivered) + [whole]
      ensures !reading ==> message.data == whole && message.Valid()
    {
      hide Number, Digits;
      if buf == [] {
        assert got + buf == got;
        return;
      }
      var i := ReadSize(buf, got);
      ghost var now := got + buf[..i];
      assert got + buf == now + buf[i..];
      if message.dataPresent < SIZE_SIZE {
        assert buf[..i] == buf;
        return;
      }
      assert now <= whole && got <= now;
      SizeArrived(got, now, whole);
      FillData(buf[i..], now, whole);
    }

    /** The size is known: the buffer takes its final size, and data goes behind what arrived `now`. */
    method FillData(rest: seq<byte>, ghost now: seq<byte>, ghost whole: seq<byte>)
      requires reading && IsMessage(whole) && SIZE_SIZE <= |now| < |whole| && now <= whole
      requires whole <= now + rest || now + rest <= whole
      requires message.dataPresent == |now| <= |message.data| && message.data[..|now|] == now
      requires message.messageSize == |whole|
      modifies this, message
      ensures |now| + |rest| < |whole| ==> reading && delivered == old(delivered) && Awaits(now + rest)
      ensures |now| + |rest| >= |whole| ==> !reading && delivered == old(delivered) + [whole]
      ensures !reading ==> message.data == whole && message.Valid()
    {
      hide Number, Digits, Pasted, Resized;
      SizeRewritten(message.data, now, whole);
      message.SetDataSize(message.messageSize - HEADER_SIZE);
      ghost var n := Least(|rest|, |whole| - |now|);
      FilledOn(message.data, now, rest, n);
      var full := message.Fill(rest);
      assert now + rest[..n] == (now + rest)[..|now| + n];
      if full {
        DigitsOfNumber(whole[..SIZE_SIZE]);
        assert |now| + n == |whole| && whole <= now + rest;
        assert message.data == message.data[..|whole|] == (now + rest)[..|whole|] == whole;
        reading := false;
        delivered := delivered + [message.data];
      } else {
        assert now + rest == (now + rest)[..|now| + n] && (now + rest)[..SIZE_SIZE] == whole[..SIZE_SIZE];
      }
    }

    /** Takes bytes of the size as long as there are any. */
    method ReadSize(buf: seq<byte>, ghost got: seq<byte>) returns (i: nat)
      requires Awaits(got)
      modifies message
      ensures i <= |buf| && i == if |got| < SIZE_SIZE then Least(|buf|, SIZE_SIZE - |got|) else 0
      ensures message.dataPresent == |got| + i <= |message.data| && message.data[..|got| + i] == got + buf[..i]
      ensures |got| + i <= SIZE_SIZE ==> message.messageSize == Number(got + buf[..i])
      ensures |message.data| == old(|message.data|)
      ensures i == 0 ==> message.messageSize == old(message.messageSize) && message.data == old(message.data)
    {
      hide Number;
      i := 0;
      assert got + buf[..0] == got;
      if |got| == SIZE_SIZE { assert got[..SIZE_SIZE] == got; }
      while message.dataPresent < SIZE_SIZE && i < |buf|
        invariant i <= |buf| && (i > 0 ==> |got| + i <= SIZE_SIZE)
        invariant message.dataPresent == |got| + i <= |message.data| == old(|message.data|)
        invariant message.data[..|got| + i] == got + buf[..i]
        invariant |got| + i <= SIZE_SIZE ==> message.messageSize == Number(got + buf[..i])
        invariant i == 0 ==> message.messageSize == old(message.messageSize) && message.data == old(message.data)
      {
        OneByteMore(message.data, got, buf, i);
        message.AddNextSizeByte(buf[i]);
        i := i + 1;
      }
    }
  }

  /**
   However a message is cut into pieces, it is delivered once, as it was sent, and with the last piece: before that
   nothing is delivered. Empty pieces do not matter, nor does what comes behind the message.
   */
  method Receive(pieces: seq<seq<byte>>, ghost whole: seq<byte>)
    returns (delivered: seq<seq<byte>>, used: nat, message: Message)
    requires IsMessage(whole) && whole <= Joined(pieces)
    ensures delivered == [whole] && used <= |pieces| && fresh(message) && message.Valid() && message.data == whole
    ensures |Joined(pieces[..used])| >= |whole|
    ensures used > 0 && |Joined(pieces[..used - 1])| < |whole|
  {
    var reader := new Reader();
    used := 0;
    ghost var got: seq<byte> := [];
    assert pieces[..0] == [] && whole[..0] == [];
    assert pieces[..|pieces|] == pieces;
    while reader.reading
      invariant used <= |pieces| && fresh(reader) && fresh(reader.message)
      invariant got == Joined(pieces[..used])
      invariant reader.reading ==>
        reader.delivered == [] && |got| < |whole| && got == whole[..|got|] && reader.Awaits(got)
      invariant !reader.reading ==> reader.delivered == [whole] && |got| >= |whole|
      invariant !reader.reading ==> reader.message.Valid() && reader.message.data == whole
      invariant !reader.reading ==> used > 0 && |Joined(pieces[..used - 1])| < |whole|
      decreases |pieces| - used
    {
      assert used < |pieces|;
      JoinedPrefix(pieces, used + 1);
      assert pieces[..used + 1][..used] == pieces[..used];
      reader.OnRead(pieces[used], got, whole);
      got := got + pieces[used];
      used := used + 1;
    }
    delivered, message := reader.delivered, reader.message;
  }
}
