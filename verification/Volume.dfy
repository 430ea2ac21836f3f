/** The disk behind a file, with an allocator of which only the promise is modelled: whatever it gives out was free. */
module Volumes {

  import opened Bytes

  const WORD := 0x1_0000_0000_0000_0000
  const BLOCK_SIZE := 512

  datatype Status = OK | NoSpace | Misaligned | NotFound | BeyondEof | DiskError | IndexFull

  datatype Extent = Extent(offset: nat, length: nat)

  predicate Apart(a: Extent, b: Extent) {
    a.offset + a.length <= b.offset || b.offset + b.length <= a.offset
  }

  /** The bytes of an extent. */
  function Span(bytes: seq<byte>, e: Extent): seq<byte>
    requires e.offset + e.length <= |bytes|
  {
    bytes[e.offset..e.offset + e.length]
  }

  /** `bytes` with `buf` written at `at`. */
  function Put(bytes: seq<byte>, at: nat, buf: seq<byte>): (r: seq<byte>)
    requires at + |buf| <= |bytes|
    ensures |r| == |bytes|
    ensures forall i :: 0 <= i < |bytes| ==> r[i] == if at <= i < at + |buf| then buf[i - at] else bytes[i]
  {
    bytes[..at] + buf + bytes[at + |buf|..]
  }

  /** The bytes of other users' extents are the same. */
  ghost predicate Spared(bytes: seq<byte>, bytes': seq<byte>, others: set<Extent>) {
    && |bytes'| == |bytes|
    && forall u :: u in others && u.offset + u.length <= |bytes| ==> Span(bytes', u) == Span(bytes, u)
  }

  lemma PutSpares(bytes: seq<byte>, e: Extent, at: nat, buf: seq<byte>, others: set<Extent>)
    requires e.offset <= at && at + |buf| <= e.offset + e.length <= |bytes|
    requires forall u :: u in others ==> Apart(u, e)
    ensures Spared(bytes, Put(bytes, at, buf), others)
  {}

  class Volume {
    const clusterSize: nat
    var bytes: seq<byte>
    /** Every extent in use, whatever file or structure it belongs to. */
    var used: set<Extent>
    /** How many requests were turned down for want of room so far. */
    ghost var refused: nat

    /** Nothing is given out twice. */
    ghost predicate Valid()
      reads this
    {
      forall a, b :: a in used && b in used && a != b ==> Apart(a, b)
    }

    constructor (clusterSize: nat, bytes: seq<byte>)
      ensures this.clusterSize == clusterSize && this.bytes == bytes && used == {} && refused == 0 && Valid()
    {
      this.clusterSize, this.bytes, used, refused := clusterSize, bytes, {}, 0;
    }

    /** Any free place may be chosen, and any request may be turned down. */
    method Allocate(length: nat) returns (st: Status, e: Extent)
      requires Valid()
      modifies this`used, this`refused
      ensures st == OK || st == NoSpace || st == Misaligned
      ensures st == Misaligned <==> length != BLOCK_SIZE && (clusterSize == 0 || length % clusterSize != 0)
      ensures refused == old(refused) + if st == NoSpace then 1 else 0
      ensures st == OK ==>
        && (length == BLOCK_SIZE || (clusterSize != 0 && length % clusterSize == 0))
        && e.length == length && e.offset + length <= |bytes|
        && (forall u :: u in old(used) ==> Apart(u, e)) && used == old(used) + {e}
      ensures st != OK ==> used == old(used)
      ensures Valid()
    {
      e := Extent(0, 0);
      if length != BLOCK_SIZE && (clusterSize == 0 || length % clusterSize != 0) { return Misaligned, e; }
      var turnedDown: bool := *;
      if turnedDown || !exists at :: 0 <= at <= |bytes| && IsFree(Extent(at, length)) {
        refused := refused + 1;
        return NoSpace, e;
      }
      var at :| 0 <= at <= |bytes| && IsFree(Extent(at, length));
      e := Extent(at, length);
      used := used + {e};
      st := OK;
    }

    predicate IsFree(e: Extent)
      reads this
    {
      e.offset + e.length <= |bytes| && forall u :: u in used ==> Apart(u, e)
    }

    method Free(e: Extent)
      modifies this`used
      ensures used == old(used) - {e} && (old(Valid()) ==> Valid())
    {
      used := used - {e};
    }

    method Read(at: nat, count: nat) returns (st: Status, buf: seq<byte>)
      ensures st == if at + count <= |bytes| then OK else DiskError
      ensures buf == if st == OK then bytes[at..at + count] else []
    {
      if at + count > |bytes| { return DiskError, []; }
      buf := bytes[at..at + count];
      st := OK;
    }

    method Write(at: nat, buf: seq<byte>) returns (st: Status)
      modifies this`bytes
      ensures st == if at + |buf| <= |old(bytes)| then OK else DiskError
      ensures bytes == if st == OK then Put(old(bytes), at, buf) else old(bytes)
      ensures old(Valid()) ==> Valid()
    {
      if at + |buf| > |bytes| { return DiskError; }
      bytes := Put(bytes, at, buf);
      st := OK;
    }
  }
}
