/** Whole runs of writes and truncations on a file, and reading back what they left. */
module FileRuns {
  import opened Bytes
  import opened Volumes
  import opened FileExtents
  import opened Files

  datatype Op = Write(buf: seq<byte>, offset: nat) | Truncate(size: nat)

  /** The operation does not leave a gap, is short enough for one new extent, and stays clear of the last offsets. */
  predicate Fits(op: Op, known: nat, clusterSize: nat, maxExtentLength: nat) {
    match op
    case Write(buf, offset) =>
      && offset <= known && |buf| + clusterSize <= maxExtentLength
      && offset + |buf| + 4 * clusterSize <= WORD
    case Truncate(size) => size < WORD
  }

  /** The bytes known after `op`, of which a write reported `r` bytes as written. */
  function Apply(c: seq<byte>, op: Op, r: nat): seq<byte> {
    match op
    case Write(buf, offset) => if offset <= |c| && r <= |buf| then Overwrite(c, offset, buf[..r]) else c
    case Truncate(size) => Cut(c, size)
  }

  function Replay(ops: seq<Op>, rs: seq<nat>, c: seq<byte>): seq<byte>
    requires |ops| == |rs|
  {
    if ops == [] then c
    else
      var n := |ops| - 1;
      Apply(Replay(ops[..n], rs[..n], c), ops[n], rs[n])
  }

  /** The size that `op` leaves. */
  function SizeAfter(size: nat, op: Op): nat {
    match op
    case Write(buf, offset) => if buf == [] then size else Max(size, offset + |buf|)
    case Truncate(n) => n
  }

  function ReplaySize(ops: seq<Op>, size: nat): nat {
    if ops == [] then size else SizeAfter(ReplaySize(ops[..|ops| - 1], size), ops[|ops| - 1])
  }

  /**
   Runs operations up to the first that fails or does not fit, starting with `known` bytes known to be `c`. One that
   fits fails only for want of room on the disk or in the index, or where the greatest length is no whole number of
   clusters.
   */
  method Run(file: File, ops: seq<Op>, known: nat, ghost c: seq<byte>) returns (st: Status, rs: seq<nat>)
    requires file.Holds(c) && known == |c|
    modifies file, file.fs
    ensures |rs| <= |ops| && (|rs| == |ops| ==> st == OK)
    ensures |rs| < |ops| && st == OK ==>
      && file.Holds(Replay(ops[..|rs|], rs, c))
      && !Fits(ops[|rs|], |Replay(ops[..|rs|], rs, c)|, file.fs.clusterSize, file.maxExtentLength)
    ensures |rs| < |ops| && st != OK ==> file.Wf() && file.Excused(st, old(file.fs.refused))
    ensures forall i :: 0 <= i < |rs| && ops[i].Write? && ops[i].buf != [] ==> 1 <= rs[i] <= |ops[i].buf|
    ensures |rs| == |ops| ==> file.Holds(Replay(ops, rs, c))
    ensures st == OK ==> file.size == ReplaySize(ops[..|rs|], old(file.size))
  {
    hide Sound, Overwrite, Cut, WriteLength, Put, Replay, ReplaySize, Measured;
    st, rs := OK, [];
    ReplayNone(ops, c, file.size);
    var length := known;
    ghost var now := c;
    while |rs| < |ops|
      invariant |rs| <= |ops| && file.Holds(now) && length == |now| && now == Replay(ops[..|rs|], rs, c)
      invariant forall i :: 0 <= i < |rs| && ops[i].Write? && ops[i].buf != [] ==> 1 <= rs[i] <= |ops[i].buf|
      invariant file.size == ReplaySize(ops[..|rs|], old(file.size))
      invariant st == OK && file.fs.refused >= old(file.fs.refused)
      decreases |ops| - |rs|
    {
      var op := ops[|rs|];
      if !Fits(op, length, file.fs.clusterSize, file.maxExtentLength) { return; }
      var r := 0;
      match op {
        case Write(buf, offset) =>
          st, r := file.Write(buf, offset, now);
          length := if offset + r <= length then length else offset + r;
        case Truncate(size) =>
          st := file.Truncate(size, now);
          length := if size < length then size else length;
      }
      if st != OK { return; }
      ReplayStep(ops, rs, r, c);
      ReplaySizeStep(ops, |rs|, old(file.size));
      ApplyLength(now, op, r);
      now := Apply(now, op, r);
      rs := rs + [r];
    }
    assert ops[..|rs|] == ops;
  }

  lemma ReplayStep(ops: seq<Op>, rs: seq<nat>, r: nat, c: seq<byte>)
    requires |rs| < |ops|
    ensures Replay(ops[..|rs| + 1], rs + [r], c) == Apply(Replay(ops[..|rs|], rs, c), ops[|rs|], r)
  {
    var n := |rs|;
    assert ops[..n + 1][..n] == ops[..n] && (rs + [r])[..n] == rs;
  }

  lemma ReplayNone(ops: seq<Op>, c: seq<byte>, size: nat)
    ensures Replay(ops[..0], [], c) == c && ReplaySize(ops[..0], size) == size
  {}

  lemma ReplaySizeStep(ops: seq<Op>, n: nat, size: nat)
    requires n < |ops|
    ensures ReplaySize(ops[..n + 1], size) == SizeAfter(ReplaySize(ops[..n], size), ops[n])
  {
    assert ops[..n + 1][..n] == ops[..n];
  }

  lemma ApplyLength(c: seq<byte>, op: Op, r: nat)
    ensures |Apply(c, op, r)| == match op
            case Write(buf, offset) =>
              if offset <= |c| && r <= |buf| && offset + r > |c| then offset + r else |c|
            case Truncate(size) => if size < |c| then size else |c|
  {}

  /** Reads a whole file of which all bytes are known: none of the reads fails, and they return these bytes. */
  method ReadAll(file: File, n: nat, ghost c: seq<byte>) returns (buf: seq<byte>)
    requires file.Holds(c) && n == |c|
    ensures buf == c
  {
    hide Sound, File.IsRead;
    buf := [];
    while |buf| < n
      invariant |buf| <= n && buf == c[..|buf|]
      decreases n - |buf|
    {
      var st, more := file.Read(n - |buf|, |buf|, c);
      AgreesPrefix(buf, more, c);
      buf := buf + more;
    }
  }

  lemma AgreesPrefix(buf: seq<byte>, more: seq<byte>, c: seq<byte>)
    requires |buf| + |more| <= |c| && buf == c[..|buf|] && Agrees(more, c, |buf|)
    ensures buf + more == c[..|buf| + |more|]
  {}

  /** Writes all of `buf` in pieces of at most `piece` bytes; each write does some of it, so this ends. */
  method WriteAll(file: File, buf: seq<byte>, offset: nat, piece: nat, ghost c: seq<byte>) returns (st: Status)
    requires file.Holds(c) && offset <= |c| && 0 < piece && piece + file.fs.clusterSize <= file.maxExtentLength
    requires offset + |buf| + 4 * file.fs.clusterSize <= WORD
    modifies file, file.fs
    ensures st == OK ==> file.Holds(Overwrite(c, offset, buf))
    ensures st == OK ==> file.size == if buf == [] then old(file.size) else Max(old(file.size), offset + |buf|)
    ensures st != OK ==> file.Wf() && file.Excused(st, old(file.fs.refused))
  {
    hide Sound, Overwrite, WriteLength, Put;
    var done := 0;
    OverwriteNothing(c, offset);
    assert buf[..0] == [];
    st := OK;
    while done < |buf|
      invariant done <= |buf| && offset + done <= |Overwrite(c, offset, buf[..done])|
      invariant file.Holds(Overwrite(c, offset, buf[..done])) && st == OK
      invariant if done == 0 then file.size == old(file.size)
                else Max(old(file.size), offset + done) <= file.size <= Max(old(file.size), offset + |buf|)
      invariant file.fs.refused >= old(file.fs.refused)
      decreases |buf| - done
    {
      var next := Min(|buf|, done + piece);
      var r;
      st, r := file.Write(buf[done..next], offset + done, Overwrite(c, offset, buf[..done]));
      if st != OK { return; }
      OverwriteOn(c, offset, buf, done, r);
      assert buf[done..next][..r] == buf[done..done + r];
      done := done + r;
    }
    assert buf[..done] == buf;
  }

  lemma OverwriteOn(c: seq<byte>, o: nat, buf: seq<byte>, i: nat, r: nat)
    requires o <= |c| && i + r <= |buf|
    ensures o + i <= |Overwrite(c, o, buf[..i])|
    ensures Overwrite(Overwrite(c, o, buf[..i]), o + i, buf[i..i + r]) == Overwrite(c, o, buf[..i + r])
    ensures o + i + r <= |Overwrite(c, o, buf[..i + r])|
  {}
}
