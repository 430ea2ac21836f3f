/** Files: small ones inside their inode, big ones in extents that an index finds by their last byte. */
module Files {
  import opened Bytes
  import opened Volumes
  import opened FileExtents
  import M = BmTreeModel
  import X = Multiples

  /** The only extent of a file that has just left its inode, wherever its block is. */
  const FIRST := DataExtent(0, BLOCK_SIZE, 0)

  predicate IsFirst(index: seq<DataExtent>) {
    |index| == 1 && SameLocal(index[0], FIRST)
  }

  function Max(a: nat, b: nat): nat {
    if a < b then b else a
  }

  lemma FirstLength(index: seq<DataExtent>, o: nat, count: nat, clusterSize: nat)
    requires IsFirst(index)
    ensures WriteLength(index, o, count, clusterSize) == WriteLength([FIRST], o, count, clusterSize)
  {
    assert Keys(index) == [M.Entry(LocalLast(FIRST), 0)] == Keys([FIRST]);
  }

  /** The lengths and starts of the extents fit into machine words. */
  predicate Measured(index: seq<DataExtent>) {
    forall i :: 0 <= i < |index| ==> 0 < index[i].length < WORD && index[i].localStart < WORD
  }

  lemma MeasuredWithout(index: seq<DataExtent>, at: nat)
    requires Measured(index) && at < |index|
    ensures Measured(M.RemoveAt(index, at)) && 0 < index[at].length < WORD && index[at].localStart < WORD
  {}

  lemma MeasuredWith(index: seq<DataExtent>, at: nat, x: DataExtent)
    requires Measured(index) && at <= |index| && 0 < x.length < WORD && x.localStart < WORD
    ensures Measured(M.InsertAt(index, at, x))
  {}

  function Zeros(n: nat): seq<byte> {
    seq(n, _ => 0)
  }

  class File {
    const fs: Volume
    const dataSize: nat
    const maxExtentLength: nat
    /** How many extents the only leaf of the index can hold. */
    const leafCapacity: nat
    var size: nat
    /** The data area of the inode. In a big file it begins with the address of the index. */
    var data: seq<byte>
    var index: seq<DataExtent>

    /** An empty file. */
    constructor (fs: Volume, dataSize: nat, maxExtentLength: nat, leafCapacity: nat)
      requires fs.Valid() && dataSize <= BLOCK_SIZE <= fs.clusterSize < WORD && 0 < maxExtentLength < WORD
      ensures this.fs == fs && Holds([]) && size == 0
    {
      this.fs, this.dataSize, this.maxExtentLength, this.leafCapacity := fs, dataSize, maxExtentLength, leafCapacity;
      size, data, index := 0, Zeros(dataSize), [];
    }

    /** What holds of every file, whatever was done to it. */
    ghost predicate Wf()
      reads this, fs
    {
      && fs.Valid() && |data| == dataSize <= BLOCK_SIZE <= fs.clusterSize < WORD
      && 0 < maxExtentLength < WORD && size < WORD && Measured(index)
    }

    /** The file is in good order and its first bytes are `c`. */
    ghost predicate Holds(c: seq<byte>)
      reads this, fs
    {
      && Wf() && |c| <= size
      && if size <= dataSize then index == [] && c == data[..|c|] else HoldsBig(c)
    }

    ghost predicate HoldsBig(c: seq<byte>)
      reads this, fs
    {
      Sound(index, fs.bytes, fs.used, fs.clusterSize, c)
    }

    /** Since the disk was `bytes` and the file's extents were `own`, nothing of anybody else's was touched. */
    ghost predicate Minded(bytes: seq<byte>, used: set<Extent>, own: seq<DataExtent>)
      reads this, fs
    {
      MindsItsOwn(bytes, used, own, fs.bytes, fs.used, index)
    }

    /** Why an operation fails on a file in good order: the disk had no room, or the index, or the length is odd. */
    ghost predicate Excused(st: Status, refused: nat)
      reads this, fs
      requires fs.clusterSize > 0
    {
      || fs.refused > refused
      || (st == IndexFull && |index| >= leafCapacity)
      || (st == Misaligned && maxExtentLength % fs.clusterSize != 0)
    }

    lemma IsExcused(st: Status, refused: nat)
      requires fs.clusterSize > 0
      requires
        || fs.refused > refused || (st == IndexFull && |index| >= leafCapacity)
        || (st == Misaligned && maxExtentLength % fs.clusterSize != 0)
      ensures Excused(st, refused)
    {}

    // ---- Reading ----

    method Read(count: nat, offset: nat, ghost c: seq<byte>) returns (st: Status, buf: seq<byte>)
      requires Wf() && offset + count < WORD
      ensures st == BeyondEof <==> offset > size
      ensures st == OK ==> |buf| <= count && offset + |buf| <= size
      ensures st == OK && offset < size && count > 0 ==> |buf| >= 1
      ensures st != OK ==> buf == []
      ensures offset <= size <= dataSize ==> st == OK && buf == data[offset..offset + Min(count, size - offset)]
      ensures offset <= size && dataSize < size ==> IsRead(st, buf, offset, Min(count, size - offset))
      ensures Holds(c) && offset <= size ==> st == OK
      ensures Holds(c) && st == OK ==> Agrees(buf, c, offset)
    {
      hide IsRead, Sound;
      if offset > size { return BeyondEof, []; }
      var end := Min(size, offset + count);
      var trueCount := end - offset;
      if trueCount == 0 {
        NothingRead(offset);
        return OK, [];
      }
      if size <= dataSize { return OK, data[offset..end]; }
      st, buf := ReadBig(trueCount, offset, c);
    }

    /** What a read of `count` bytes of a big file gives: as far as the index says, zeros or bytes from the disk. */
    ghost predicate IsRead(st: Status, buf: seq<byte>, offset: nat, count: nat)
      reads this, fs
    {
      var n := ReadLength(index, offset, count);
      if n == 0 || InHole(index, offset) then st == OK && buf == Zeros(n)
      else
        var x := index[Slot(index, offset)];
        var at := x.offset + (offset - x.localStart);
        st == (if at + n <= |fs.bytes| then OK else DiskError) && buf == (if st == OK then fs.bytes[at..at + n] else [])
    }

    lemma NothingRead(offset: nat)
      ensures IsRead(OK, [], offset, 0)
    {}

    method ReadBig(count: nat, offset: nat, ghost c: seq<byte>) returns (st: Status, buf: seq<byte>)
      requires Wf() && 0 < count && offset + count <= size && dataSize < size
      ensures |buf| <= count && (if st == OK then |buf| >= 1 else buf == []) && st != BeyondEof
      ensures IsRead(st, buf, offset, count)
      ensures HoldsBig(c) ==> st == OK
      ensures HoldsBig(c) && st == OK ==> Agrees(buf, c, offset)
    {
      hide Slot, Sound, Agrees, AllApart;
      if HoldsBig(c) { SoundSlot(index, fs.bytes, fs.used, fs.clusterSize, c, offset); }
      AgreesNothing(Zeros(count), c, offset);
      var i := Slot(index, offset);
      if i == |index| { return OK, Zeros(count); }
      var x := index[i];
      if offset < x.localStart { return OK, Zeros(Min(count, x.localStart - offset)); }
      SomethingLeft(x, offset);
      var localOffset := offset - x.localStart;
      var n := Min(count, x.length - localOffset);
      st, buf := fs.Read(x.offset + localOffset, n);
      if HoldsBig(c) {
        SoundRead(index, fs.bytes, fs.used, fs.clusterSize, c, offset, n);
      }
    }

    // ---- Changing the size ----

    method Truncate(newSize: nat, ghost c: seq<byte>) returns (st: Status)
      requires Wf() && newSize < WORD
      modifies this, fs
      ensures Wf() && (st == OK ==> size == newSize) && fs.refused >= old(fs.refused)
      ensures st != OK ==> size == old(size) || size == newSize
      ensures old(size) <= dataSize && newSize <= dataSize ==> st == OK && data == old(Resized(newSize))
      ensures old(size) > dataSize && newSize > dataSize ==>
        st == OK && index == old(index) && fs.bytes == old(fs.bytes) && fs.used == old(fs.used)
      ensures st == OK && old(size) <= dataSize && newSize > dataSize ==> IsFirst(index)
      ensures st != OK && old(Holds(c)) ==> fs.refused > old(fs.refused)
      ensures st == OK && old(Holds(c)) ==> Holds(Cut(c, newSize)) && Minded(old(fs.bytes), old(fs.used), old(index))
    {
      hide Sound, MindsItsOwn;
      MindsNothing(fs.bytes, fs.used, index);
      if size == newSize { return OK; }
      var oldIsBig, newIsBig := size > dataSize, newSize > dataSize;
      if !oldIsBig && !newIsBig {
        st := ResizeSmallToSmall(newSize, c);
      } else if !oldIsBig {
        st := ResizeSmallToBig(size, newSize, c);
      } else if !newIsBig {
        st := ResizeBigToSmall(newSize, c);
      } else {
        st := ResizeBigToBig(size, newSize, c);
      }
    }

    /** The data area of an inode whose file gets another size. */
    function Resized(newSize: nat): seq<byte>
      reads this
      requires newSize <= |data|
    {
      if newSize == size then data else data[..newSize] + Zeros(|data| - newSize)
    }

    method ResizeSmallToSmall(newSize: nat, ghost c: seq<byte>) returns (st: Status)
      requires Wf() && size <= dataSize && newSize <= dataSize
      modifies this
      ensures Wf() && st == OK && size == newSize && data == old(data)[..newSize] + Zeros(dataSize - newSize)
      ensures old(Holds(c)) ==> Holds(Cut(c, newSize)) && Minded(old(fs.bytes), old(fs.used), old(index))
    {
      MindsNothing(fs.bytes, fs.used, index);
      data := data[..newSize] + Zeros(dataSize - newSize);
      size := newSize;
      st := OK;
    }

    /** The index has a new root: its address overwrites the beginning of the inode's data area. */
    method OnRootChange()
      requires Wf()
      modifies this`data
      ensures Wf()
    {
      var address: seq<byte> := *;
      if |address| <= |data| {
        data := Put(data, 0, address);
      }
    }

    method ResizeSmallToBig(oldSize: nat, newSize: nat, ghost c: seq<byte>) returns (st: Status)
      requires Wf() && oldSize == size <= dataSize < newSize < WORD
      modifies this, fs
      ensures Wf() && (st == OK ==> size == newSize) && fs.refused >= old(fs.refused)
      ensures st == OK ==> IsFirst(index)
      ensures st != OK ==> size == old(size) || size == newSize
      ensures st != OK ==> fs.refused > old(fs.refused)
      ensures st == OK && old(Holds(c)) ==> Holds(c) && Minded(old(fs.bytes), old(fs.used), old(index))
    {
      hide Sound, MindsItsOwn, Apart;
      var buf := data[..oldSize] + Zeros(BLOCK_SIZE - oldSize);
      var block;
      st, block := fs.Allocate(BLOCK_SIZE);
      if st != OK { return; }
      ghost var x := DataExtent(block.offset, block.length, 0);
      ExtendMinds([], fs.bytes, old(fs.used), x, block.offset, buf);
      assert [] + [x] == [x] && OnDisk(x) == block;
      if Holds(c) { SoundBlock(block, fs.bytes, fs.used, fs.clusterSize, buf, c); }
      st := fs.Write(block.offset, buf);
      if st != OK { return; }
      size := newSize;
      st := InitIndex();
      if st != OK { return; }
      index := [DataExtent(block.offset, block.length, 0)];
    }

    /** An empty index, in a block of its own. */
    method InitIndex() returns (st: Status)
      requires Wf()
      modifies this`data, this`index, fs`refused
      ensures Wf() && index == [] && (st == OK || st == NoSpace)
      ensures fs.refused == old(fs.refused) + if st == OK then 0 else 1
    {
      index := [];
      var full: bool := *;
      if full {
        fs.refused := fs.refused + 1;
        return NoSpace;
      }
      OnRootChange();
      st := OK;
    }

    method ResizeBigToSmall(newSize: nat, ghost c: seq<byte>) returns (st: Status)
      requires Wf() && newSize <= dataSize < size
      modifies this
      ensures Wf() && (st == OK ==> size == newSize)
      ensures st != OK ==> size == old(size)
      ensures old(Holds(c)) ==> st == OK
      ensures st == OK && old(Holds(c)) ==> Holds(Cut(c, newSize)) && Minded(old(fs.bytes), old(fs.used), old(index))
    {
      hide Sound, MindsItsOwn, IsRead;
      MindsNothing(fs.bytes, fs.used, index);
      var buf: seq<byte> := [];
      while |buf| < newSize
        invariant |buf| <= newSize && Wf() && size == old(size) && dataSize < size
        invariant Holds(c) == old(Holds(c)) && (Holds(c) ==> Agrees(buf, c, 0))
        decreases newSize - |buf|
      {
        var more;
        st, more := Read(newSize - |buf|, |buf|, c);
        if st != OK { return; }
        buf := buf + more;
      }
      index := [];
      data := Put(data, 0, buf);
      size := newSize;
      st := OK;
    }

    method ResizeBigToBig(oldSize: nat, newSize: nat, ghost c: seq<byte>) returns (st: Status)
      requires Wf() && oldSize == size && dataSize < size && dataSize < newSize < WORD
      modifies this
      ensures Wf() && st == OK && size == newSize
      ensures index == old(index) && fs.bytes == old(fs.bytes) && fs.used == old(fs.used)
      ensures old(Holds(c)) ==> Holds(Cut(c, newSize)) && Minded(old(fs.bytes), old(fs.used), old(index))
    {
      hide Sound, MindsItsOwn;
      MindsNothing(fs.bytes, fs.used, index);
      if newSize > oldSize {
        size := newSize;
        return OK;
      }
      // The loop that frees extents starts at the old size and ends at the new one, not above it: it never runs.
      assert !(oldSize < newSize);
      if Holds(c) { SoundCut(index, fs.bytes, fs.used, fs.clusterSize, c, newSize); }
      size := newSize;
      st := OK;
    }

    // ---- Writing ----

    /**
     Writes the first `r` bytes of `buf`, as many as go into one extent, after the file has grown to the end of all of
     `buf`. If the write starts within the bytes known to be `c` or right behind them, and is short enough for a new
     extent, then these bytes change and no others.
     */
    method Write(buf: seq<byte>, offset: nat, ghost c: seq<byte>) returns (st: Status, r: nat)
      requires Wf() && offset + |buf| + 4 * fs.clusterSize <= WORD
      modifies this, fs
      ensures fs.refused >= old(fs.refused)
      ensures Wf() && r <= |buf| && (st == OK && buf != [] ==> r >= 1)
      ensures buf == [] ==>
        && st == OK && r == 0 && size == old(size) && data == old(data) && index == old(index)
        && fs.bytes == old(fs.bytes) && fs.used == old(fs.used)
      ensures st == OK && buf != [] ==> size == Max(old(size), offset + |buf|)
      ensures st != OK ==> r == 0 && (size == old(size) || size == Max(old(size), offset + |buf|))
      ensures buf != [] && Max(old(size), offset + |buf|) <= dataSize ==>
        st == OK && r == |buf| && data == Put(old(Resized(Max(size, offset + |buf|))), offset, buf)
      ensures st == OK && buf != [] && size > dataSize ==>
        r == WriteLength(if old(size) > dataSize then old(index) else [FIRST], offset, |buf|, fs.clusterSize)
      ensures st != OK && old(Holds(c)) && offset <= |c| && |buf| + fs.clusterSize <= maxExtentLength ==>
        Excused(st, old(fs.refused))
      ensures st == OK && old(Holds(c)) && offset <= |c| && |buf| + fs.clusterSize <= maxExtentLength ==>
        Holds(Overwrite(c, offset, buf[..r])) && Minded(old(fs.bytes), old(fs.used), old(index))
    {
      hide Sound, MindsItsOwn, WriteLength, Slot, Overwrite;
      MindsNothing(fs.bytes, fs.used, index);
      if offset <= |c| { OverwriteNothing(c, offset); }
      if buf == [] { return OK, 0; }
      if offset + |buf| > size {
        st := Truncate(offset + |buf|, c);
        if st != OK { return st, 0; }
      }
      if size <= dataSize {
        data := Put(data, offset, buf);
        return OK, |buf|;
      }
      ghost var b1, u1, i1 := fs.bytes, fs.used, index;
      if old(size) <= dataSize { FirstLength(index, offset, |buf|, fs.clusterSize); }
      st, r := WriteBig(buf, offset, c);
      MindsBoth(old(fs.bytes), old(fs.used), old(index), b1, u1, i1);
    }

    lemma MindsBoth(b0: seq<byte>, u0: set<Extent>, i0: seq<DataExtent>, b1: seq<byte>, u1: set<Extent>,
            i1: seq<DataExtent>)
      ensures MindsItsOwn(b0, u0, i0, b1, u1, i1) && Minded(b1, u1, i1) ==> Minded(b0, u0, i0)
    {
      if MindsItsOwn(b0, u0, i0, b1, u1, i1) && Minded(b1, u1, i1) {
        MindsTwice(b0, u0, i0, b1, u1, i1, fs.bytes, fs.used, index);
      }
    }

    method WriteBig(buf: seq<byte>, offset: nat, ghost c: seq<byte>) returns (st: Status, r: nat)
      requires Wf() && offset + |buf| + 4 * fs.clusterSize <= WORD && buf != [] && offset + |buf| <= size
      requires dataSize < size
      modifies this, fs
      ensures Wf() && size == old(size) && r <= |buf| && if st == OK then r >= 1 else r == 0
      ensures st == OK ==> r == WriteLength(old(index), offset, |buf|, fs.clusterSize)
      ensures st != OK && old(HoldsBig(c)) && offset <= |c| && |buf| + fs.clusterSize <= maxExtentLength ==>
        Excused(st, old(fs.refused))
      ensures fs.refused >= old(fs.refused)
      ensures st == OK && old(HoldsBig(c)) && offset <= |c| && |buf| + fs.clusterSize <= maxExtentLength ==>
        HoldsBig(Overwrite(c, offset, buf[..r])) && Minded(old(fs.bytes), old(fs.used), old(index))
    {
      hide Sound, Slot, LocalEnd, Overwrite, MindsItsOwn, IsBlock, Put, WriteLength, Promoted, SameLocal, M.RemoveAt,
           M.InsertAt, AtClusterEnd, NewStart, NewLength, OnDisk;
      MindsNothing(fs.bytes, fs.used, index);
      ghost var good := HoldsBig(c) && offset <= |c|;
      if good { SoundEnd(index, fs.bytes, fs.used, fs.clusterSize, c, offset); }
      var i := Slot(index, offset);
      var offsetFits := i < |index|;
      var present := index != [];
      var x;
      if offsetFits {
        x := index[i];
      } else if present {
        // The extent with the greatest key.
        x := index[|index| - 1];
        if x.length == BLOCK_SIZE {
          st, x := Promote(x, c);
          if st != OK { return st, 0; }
          if good { SoundEnd(index, fs.bytes, fs.used, fs.clusterSize, c, offset); }
        }
      }
      ghost var b1, u1, i1 := fs.bytes, fs.used, index;
      if present { LengthWithin(old(index), x, offset, |buf|, fs.clusterSize); }
      LengthOfNone(offset, |buf|, fs.clusterSize);
      if present && ContainsLocal(x, offset) {
        st, r := WriteWithin(x, buf, offset, c, good);
        MindsBoth(old(fs.bytes), old(fs.used), old(index), b1, u1, i1);
        return;
      }
      if good { OverwriteAll(c, buf); }
      ghost var added;
      st, added := WriteNewExtent(buf, offset, c);
      MindsBoth(old(fs.bytes), old(fs.used), old(index), b1, u1, i1);
      r := if st == OK then |buf| else 0;
    }

    /** Writes as much of `buf` as goes into the extent `x`. */
    method WriteWithin(x: DataExtent, buf: seq<byte>, offset: nat, ghost c: seq<byte>, ghost good: bool)
      returns (st: Status, r: nat)
      requires Wf() && buf != [] && ContainsLocal(x, offset)
      requires good ==> HoldsBig(c) && offset <= |c|
      requires good ==> Slot(index, offset) < |index| && x == index[Slot(index, offset)]
      modifies fs`bytes
      ensures Wf() && if st == OK then 1 <= r == Within(x, offset, |buf|) else r == 0
      ensures good ==>
        && st == OK && r <= |buf|
        && HoldsBig(Overwrite(c, offset, buf[..r])) && Minded(old(fs.bytes), old(fs.used), old(index))
    {
      hide Sound, Slot, LocalEnd, Overwrite, MindsItsOwn, Put;
      var trueEnd := Min(offset + |buf|, LocalEnd(x));
      r := trueEnd - offset;
      if good {
        SoundWrite(index, fs.bytes, fs.used, fs.clusterSize, c, offset, buf[..r]);
      }
      st := fs.Write(x.offset + (offset - x.localStart), buf[..r]);
      if st != OK { r := 0; }
    }

    /** The last extent, a block, becomes a whole cluster. */
    method Promote(last: DataExtent, ghost c: seq<byte>) returns (st: Status, x: DataExtent)
      requires Wf() && index != [] && last == index[|index| - 1] && last.length == BLOCK_SIZE && dataSize < size
      modifies this, fs
      ensures Wf() && size == old(size)
      ensures st == OK ==>
        && SameLocal(x, Promoted(old(index), fs.clusterSize))
        && var rest := M.RemoveAt(old(index), Slot(old(index), LocalLast(last)));
           index == M.InsertAt(rest, Slot(rest, LocalLast(x)), x)
      ensures st != OK && old(HoldsBig(c)) && old(IsBlock(index)) ==> Excused(st, old(fs.refused))
      ensures fs.refused >= old(fs.refused)
      ensures st == OK && old(HoldsBig(c)) && old(IsBlock(index)) ==>
        && HoldsBig(c) && index == [x]
        && AtClusterEnd(index, fs.clusterSize) && Minded(old(fs.bytes), old(fs.used), old(index))
    {
      hide Sound, Slot, LocalLast, AtClusterEnd, IsBlock, Put, Apart, MindsItsOwn, M.InsertAt, AllApart, Straight,
           Excused, Measured, M.RemoveAt;
      ghost var was, good := index, HoldsBig(c) && IsBlock(index);
      if good { SoundBlockSlot(was, fs.bytes, fs.used, fs.clusterSize, c); }
      var at := Slot(index, LocalLast(last));
      x := index[at];
      MeasuredWithout(index, at);
      index := M.RemoveAt(index, at);
      var block;
      st, block := fs.Read(x.offset, BLOCK_SIZE);
      if st != OK { return; }
      fs.Free(OnDisk(x));
      var e;
      X.Itself(fs.clusterSize);
      st, e := fs.Allocate(fs.clusterSize);
      if st != OK {
        IsExcused(st, old(fs.refused));
        return;
      }
      if good { Promoting(was, fs.bytes, old(fs.used), fs.clusterSize, c, e); }
      x := DataExtent(e.offset, e.length, x.localStart);
      st := fs.Write(x.offset, block);
      if st != OK { return; }
      st := Insert(x);
      if st != OK { IsExcused(st, old(fs.refused)); }
    }

    /** Puts an extent into the index. */
    method Insert(x: DataExtent) returns (st: Status)
      requires Wf() && 0 < x.length < WORD && x.localStart < WORD
      modifies this`index
      ensures Wf()
      ensures st == if |old(index)| < leafCapacity then OK else IndexFull
      ensures index == if st == OK then M.InsertAt(old(index), Slot(old(index), LocalLast(x)), x) else old(index)
    {
      hide Slot, LocalLast, Measured, M.InsertAt;
      if |index| >= leafCapacity { return IndexFull; }
      MeasuredWith(index, Slot(index, LocalLast(x)), x);
      index := M.InsertAt(index, Slot(index, LocalLast(x)), x);
      st := OK;
    }

    /** Where the extent for a write begins, and how long it is. */
    method PlanExtent(offset: nat, count: nat) returns (alignedOffset: nat, alignedLength: nat)
      requires fs.clusterSize > 0
      ensures alignedOffset == NewStart(offset, fs.clusterSize)
      ensures alignedLength == NewLength(offset, count, fs.clusterSize, maxExtentLength)
    {
      var alignedEnd := NextMultipleOf(offset + count, fs.clusterSize);
      alignedOffset := PreviousMultipleOf(offset, fs.clusterSize);
      alignedLength := Min((alignedEnd - alignedOffset) % WORD, maxExtentLength);
    }

    /** A write of `count` bytes at `offset` goes into a new extent right behind the bytes `c`. */
    ghost predicate CanExtend(offset: nat, count: nat, c: seq<byte>)
      reads this, fs
      requires fs.clusterSize > 0
    {
      && HoldsBig(c) && Slot(index, offset) == |index| && offset <= |c|
      && AtClusterEnd(index, fs.clusterSize) && count + fs.clusterSize <= maxExtentLength
    }

    /** Writes all of `buf` into the new extent `x`, at its place. */
    method WriteNewExtent(buf: seq<byte>, offset: nat, ghost c: seq<byte>) returns (st: Status, ghost x: DataExtent)
      requires Wf() && offset + |buf| + 4 * fs.clusterSize <= WORD && buf != []
      modifies this, fs
      ensures Wf() && size == old(size) && fs.refused >= old(fs.refused)
      ensures st == OK ==>
        && x.localStart == NewStart(offset, fs.clusterSize)
        && x.length == NewLength(offset, |buf|, fs.clusterSize, maxExtentLength)
        && index == M.InsertAt(old(index), Slot(old(index), LocalLast(x)), x)
        && fs.used == old(fs.used) + {OnDisk(x)}
        && var at := x.offset + (offset - x.localStart) % WORD;
           at + |buf| <= |old(fs.bytes)| && fs.bytes == Put(old(fs.bytes), at, buf)
      ensures st != OK && old(CanExtend(offset, |buf|, c)) ==> Excused(st, old(fs.refused))
      ensures st == OK && old(CanExtend(offset, |buf|, c)) ==>
        HoldsBig(c + buf) && Minded(old(fs.bytes), old(fs.used), old(index))
    {
      hide Sound, Slot, NewStart, NewLength, LocalLast, AtClusterEnd, Put, Apart, MindsItsOwn, M.InsertAt,
           Excused, AllApart, Straight, Volume.Valid;
      ghost var good := CanExtend(offset, |buf|, c);
      NewLengthSane(offset, |buf|, fs.clusterSize, maxExtentLength);
      if good { SoundEnd(index, fs.bytes, fs.used, fs.clusterSize, c, offset); }
      var alignedOffset, alignedLength := PlanExtent(offset, |buf|);
      x := DataExtent(0, 0, 0);
      var e;
      st, e := fs.Allocate(alignedLength);
      if st != OK {
        if good && st == Misaligned {
          CutUnaligned(index, fs.bytes, fs.used, fs.clusterSize, c, |buf|, maxExtentLength);
        }
        if good { IsExcused(st, old(fs.refused)); }
        return;
      }
      if good {
        Extending(index, fs.bytes, old(fs.used), fs.clusterSize, c, offset, buf, maxExtentLength, e);
      }
      var localOffset := (offset - alignedOffset) % WORD;
      var new_ := DataExtent(e.offset, e.length, alignedOffset);
      x := new_;
      st := fs.Write(new_.offset + localOffset, buf);
      if st != OK { return; }
      st := Insert(new_);
      if st != OK { IsExcused(st, old(fs.refused)); }
    }
  }
}
