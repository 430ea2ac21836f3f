/** The extent index of a big file, and what bytes it says the file has. */
module FileExtents {
  import opened Bytes
  import opened Volumes
  import M = BmTreeModel
  import L = BmTreeLocate
  import O = BmTreeOrder
  import S = BmTreeSearch
  import X = Multiples

  datatype DataExtent = DataExtent(offset: nat, length: nat, localStart: nat)

  function LocalEnd(x: DataExtent): nat {
    (x.localStart + x.length) % WORD
  }

  /** The key of an extent in the index. */
  function LocalLast(x: DataExtent): nat {
    (x.localStart + x.length - 1) % WORD
  }

  predicate ContainsLocal(x: DataExtent, o: nat) {
    o >= x.localStart && o < LocalEnd(x)
  }

  function OnDisk(x: DataExtent): Extent {
    Extent(x.offset, x.length)
  }

  /** Not the multiple of `base` before `m` but the one before that, except right below a multiple. */
  function PreviousMultipleOf(m: nat, base: nat): nat
    requires base > 0
  {
    X.Multiple((m - base + 1) % WORD, base)
  }

  function NextMultipleOf(m: nat, base: nat): nat
    requires base > 0
  {
    X.Multiple((m + base - 1) % WORD, base)
  }

  function Min(a: nat, b: nat): nat {
    if a < b then a else b
  }

  /** It is the multiple at or below `m` exactly for an `m` right below a multiple, else the one before that. */
  lemma PreviousMultipleExact(m: nat, base: nat)
    requires base > 0 && m < WORD && (m + 1 < base ==> WORD % base == 0)
    ensures PreviousMultipleOf(m, base)
            == if m % base == base - 1 then X.Multiple(m, base) else (X.Multiple(m, base) - base) % WORD
  {
    hide X.Multiple, PreviousMultipleOf;
    var r := X.Multiple(m, base);
    MultipleRest(m, base);
    if m % base == base - 1 {
      PreviousIs(m, base, m - base + 1, r);
    } else if r >= base {
      X.OneBefore(r, base);
      PreviousIs(m, base, m - base + 1, r - base);
    } else {
      FirstMultiple(r, base);
      X.OneBefore(WORD, base);
      PreviousIs(m, base, WORD + m - base + 1, WORD - base);
    }
  }

  lemma PreviousIs(m: nat, base: nat, w: nat, r: nat)
    requires base > 0 && w < WORD && (w == m - base + 1 || w == WORD + m - base + 1)
    requires r % base == 0 && r <= w < r + base
    ensures PreviousMultipleOf(m, base) == r
  {
    hide X.Multiple;
    assert (m - base + 1) % WORD == w;
    MultipleIs(w, base, r);
  }

  lemma MultipleRest(m: nat, base: nat)
    requires base > 0
    ensures m % base == m - X.Multiple(m, base)
  {}

  lemma FirstMultiple(r: nat, base: nat)
    requires r < base && r % base == 0
    ensures r == 0
  {
    if r > 0 { X.Positive(r, base); }
  }

  // ---- The index, one leaf of a Bm+tree ----

  /** The leaf's keys; an extent is the record. */
  function Keys(index: seq<DataExtent>): (r: seq<M.Entry>)
    ensures |r| == |index| && forall i :: 0 <= i < |index| ==> r[i].key == LocalLast(index[i])
  {
    seq(|index|, i requires 0 <= i < |index| => M.Entry(LocalLast(index[i]), i))
  }

  /** Where the leaf is searched, and where it inserts and removes, for `key`. */
  function Slot(index: seq<DataExtent>, key: nat): (r: nat)
    ensures r <= |index|
    ensures r < |index| ==> LocalLast(index[r]) >= key
    ensures r == |index| <==> forall i :: 0 <= i < |index| ==> LocalLast(index[i]) < key
  {
    var r := L.LeafIndex(Keys(index), key);
    assert forall i :: 0 <= i < |index| ==> LocalLast(index[i]) == Keys(index)[i].key;
    r
  }

  /** An extent that does not wrap around the end of the file's offsets. */
  predicate Straight(x: DataExtent) {
    x.length > 0 && x.localStart + x.length < WORD
  }

  function Last(x: DataExtent): int {
    x.localStart + x.length - 1
  }

  /** The extents of an index lie in order of their keys and leave no holes. One may reach back below earlier ones. */
  ghost predicate Chain(index: seq<DataExtent>) {
    && index != [] && index[0].localStart == 0
    && (forall i :: 0 <= i < |index| ==> Straight(index[i]))
    && (forall i, j :: 0 <= i < j < |index| ==> Last(index[i]) < Last(index[j]))
    && (forall i, j :: 0 <= i && j == i + 1 && j < |index| ==> index[j].localStart <= Last(index[i]) + 1)
  }

  ghost function End(index: seq<DataExtent>): int
    requires index != []
  {
    Last(index[|index| - 1]) + 1
  }

  lemma StraightLast(x: DataExtent)
    requires Straight(x)
    ensures LocalLast(x) == Last(x) && LocalEnd(x) == Last(x) + 1
  {}

  lemma KeysSorted(index: seq<DataExtent>)
    requires Chain(index)
    ensures O.Sorted(Keys(index))
    ensures forall i :: 0 <= i < |index| ==> Keys(index)[i].key == LocalLast(index[i]) == Last(index[i])
  {
    hide LocalLast;
    forall i | 0 <= i < |index| ensures LocalLast(index[i]) == Last(index[i]) {
      StraightLast(index[i]);
    }
    forall i, j | 0 <= i < j < |index| ensures Keys(index)[i].key <= Keys(index)[j].key {
      assert Last(index[i]) < Last(index[j]);
    }
  }

  /** What a search for an offset finds. */
  lemma SlotContains(index: seq<DataExtent>, o: nat)
    requires Chain(index)
    ensures o < End(index) <==> Slot(index, o) < |index|
    ensures o < End(index) ==>
              var i := Slot(index, o);
              index[i].localStart <= o <= Last(index[i]) && forall j :: 0 <= j < i ==> Last(index[j]) < o
  {
    hide LocalLast, Last, Keys;
    var i, n := Slot(index, o), |index|;
    KeysSorted(index);
    if i == n {
      assert LocalLast(index[n - 1]) < o;
    } else {
      SlotAround(index, o);
      if i < n - 1 { assert Last(index[i]) < Last(index[n - 1]); }
    }
  }

  lemma SlotAround(index: seq<DataExtent>, o: nat)
    requires Chain(index) && Slot(index, o) < |index|
    ensures var i := Slot(index, o);
            index[i].localStart <= o <= Last(index[i]) && forall j :: 0 <= j < i ==> Last(index[j]) < o
  {
    hide LocalLast, Last;
    var i := Slot(index, o);
    KeysSorted(index);
    S.LeafIndexAround(Keys(index), o);
    forall j | 0 <= j < i ensures Last(index[j]) < o {
      assert Keys(index)[j].key <= o && Last(index[j]) < Last(index[i]);
    }
    if i > 0 {
      var h := i - 1;
      assert index[i].localStart <= Last(index[h]) + 1;
    }
  }

  lemma SlotIs(index: seq<DataExtent>, o: nat, i: nat)
    requires Chain(index) && i < |index| && Last(index[i]) >= o
    requires forall j :: 0 <= j < i ==> Last(index[j]) < o
    ensures Slot(index, o) == i && o < End(index)
  {
    hide LocalLast, Slot, Last;
    SlotContains(index, o);
    var n := |index|;
    if i < n - 1 { assert Last(index[i]) < Last(index[n - 1]); }
  }

  // ---- The bytes of a big file ----

  /** The extents lie on the disk, apart from each other. */
  ghost predicate Laid(index: seq<DataExtent>, bytes: seq<byte>) {
    && (forall i :: 0 <= i < |index| ==> index[i].offset + index[i].length <= |bytes|)
    && (forall i, j :: 0 <= i < j < |index| ==> Apart(OnDisk(index[i]), OnDisk(index[j])))
  }

  ghost predicate Usable(index: seq<DataExtent>, bytes: seq<byte>) {
    Chain(index) && Laid(index, bytes)
  }

  /** Where the file's byte at `o` is on the disk. */
  ghost function Place(index: seq<DataExtent>, bytes: seq<byte>, o: nat): (r: nat)
    requires Usable(index, bytes) && o < End(index)
    ensures r < |bytes|
  {
    hide Slot;
    SlotContains(index, o);
    var x := index[Slot(index, o)];
    x.offset + (o - x.localStart)
  }

  /** The file's first bytes are `c`. */
  ghost predicate Shows(index: seq<DataExtent>, bytes: seq<byte>, c: seq<byte>) {
    && Usable(index, bytes)
    && |c| <= End(index)
    && forall o :: 0 <= o < |c| ==> bytes[Place(index, bytes, o)] == c[o]
  }

  /** `c` after `buf` was written at `o`. */
  function Overwrite(c: seq<byte>, o: nat, buf: seq<byte>): (r: seq<byte>)
    requires o <= |c|
    ensures |r| == if o + |buf| <= |c| then |c| else o + |buf|
    ensures forall i :: 0 <= i < |r| ==> r[i] == if o <= i < o + |buf| then buf[i - o] else c[i]
  {
    c[..o] + buf + if o + |buf| <= |c| then c[o + |buf|..] else []
  }

  lemma OverwriteNothing(c: seq<byte>, o: nat)
    requires o <= |c|
    ensures Overwrite(c, o, []) == c
  {}

  lemma OverwriteAll(c: seq<byte>, buf: seq<byte>)
    ensures Overwrite(c, |c|, buf[..|buf|]) == c + buf
  {
    assert buf[..|buf|] == buf;
  }

  function Cut(c: seq<byte>, n: nat): seq<byte> {
    if n < |c| then c[..n] else c
  }

  lemma ShowsCut(index: seq<DataExtent>, bytes: seq<byte>, c: seq<byte>, n: nat)
    requires Shows(index, bytes, c)
    ensures Shows(index, bytes, Cut(c, n))
  {}

  /** `buf`, read at `o`, agrees with the bytes `c` of a file as far as these are known. */
  predicate Agrees(buf: seq<byte>, c: seq<byte>, o: nat) {
    forall k :: 0 <= k < |buf| && o + k < |c| ==> buf[k] == c[o + k]
  }

  /** Reading on within the extent that is found for `o`. */
  lemma ReadWithin(index: seq<DataExtent>, bytes: seq<byte>, c: seq<byte>, o: nat, n: nat)
    requires Shows(index, bytes, c) && o < End(index) && n <= Last(index[Slot(index, o)]) + 1 - o
    ensures var at := Place(index, bytes, o);
            at + n <= |bytes| && Agrees(bytes[at..at + n], c, o)
  {
    hide Slot, Chain;
    SlotContains(index, o);
    var buf := bytes[Place(index, bytes, o)..Place(index, bytes, o) + n];
    forall k | 0 <= k < |buf| && o + k < |c| ensures buf[k] == c[o + k] {
      SlotIs(index, o + k, Slot(index, o));
      assert bytes[Place(index, bytes, o + k)] == c[o + k];
    }
  }

  /** Writing outside the file's extents changes nothing of it. */
  lemma WriteElsewhere(index: seq<DataExtent>, bytes: seq<byte>, c: seq<byte>, e: Extent, at: nat, buf: seq<byte>)
    requires Shows(index, bytes, c) && e.offset <= at && at + |buf| <= e.offset + e.length <= |bytes|
    requires forall i :: 0 <= i < |index| ==> Apart(OnDisk(index[i]), e)
    ensures Shows(index, Put(bytes, at, buf), c)
  {
    hide Slot, Chain;
    var bytes' := Put(bytes, at, buf);
    assert Usable(index, bytes');
    forall o | 0 <= o < |c| ensures bytes'[Place(index, bytes', o)] == c[o] {
      SlotContains(index, o);
      assert Apart(OnDisk(index[Slot(index, o)]), e);
      assert bytes[Place(index, bytes, o)] == c[o];
    }
  }

  /** Writing within the extent that is found for `o`. */
  lemma WriteWithin(index: seq<DataExtent>, bytes: seq<byte>, c: seq<byte>, o: nat, buf: seq<byte>)
    requires Shows(index, bytes, c) && o <= |c| && o < End(index)
    requires o + |buf| <= Last(index[Slot(index, o)]) + 1
    ensures Place(index, bytes, o) + |buf| <= |bytes|
    ensures Shows(index, Put(bytes, Place(index, bytes, o), buf), Overwrite(c, o, buf))
  {
    hide Slot, Chain;
    SlotContains(index, o);
    LastsUpTo(index, Slot(index, o));
    var at := Place(index, bytes, o);
    var bytes', c' := Put(bytes, at, buf), Overwrite(c, o, buf);
    assert Usable(index, bytes');
    forall k | 0 <= k < |c'| ensures bytes'[Place(index, bytes', k)] == c'[k] {
      WrittenByte(index, bytes, c, o, buf, k);
    }
  }

  lemma LastsUpTo(index: seq<DataExtent>, i: nat)
    requires Chain(index) && i < |index|
    ensures Last(index[i]) < End(index)
  {
    hide Last;
    var n := |index|;
    if i < n - 1 { assert Last(index[i]) < Last(index[n - 1]); }
  }

  lemma WrittenByte(index: seq<DataExtent>, bytes: seq<byte>, c: seq<byte>, o: nat, buf: seq<byte>, k: nat)
    requires Shows(index, bytes, c) && o <= |c| && o < End(index)
    requires o + |buf| <= Last(index[Slot(index, o)]) + 1
    requires Place(index, bytes, o) + |buf| <= |bytes| && k < |Overwrite(c, o, buf)| && k < End(index)
    ensures var bytes' := Put(bytes, Place(index, bytes, o), buf);
            Usable(index, bytes') && bytes'[Place(index, bytes', k)] == Overwrite(c, o, buf)[k]
  {
    hide Place, Overwrite, Usable;
    assert Usable(index, Put(bytes, Place(index, bytes, o), buf)) by {
      UsablePut(index, bytes, Place(index, bytes, o), buf);
    }
    PlaceOf(index, bytes, Put(bytes, Place(index, bytes, o), buf), k);
    if o <= k < o + |buf| {
      PlaceWithin(index, bytes, o, k);
    } else {
      PlaceApart(index, bytes, o, |buf|, k);
      assert bytes[Place(index, bytes, k)] == c[k];
    }
  }

  lemma UsablePut(index: seq<DataExtent>, bytes: seq<byte>, at: nat, buf: seq<byte>)
    requires Usable(index, bytes) && at + |buf| <= |bytes|
    ensures Usable(index, Put(bytes, at, buf))
  {}

  lemma PlaceOf(index: seq<DataExtent>, bytes: seq<byte>, bytes': seq<byte>, o: nat)
    requires Usable(index, bytes) && Usable(index, bytes') && o < End(index)
    ensures Place(index, bytes', o) == Place(index, bytes, o)
  {}

  lemma PlaceWithin(index: seq<DataExtent>, bytes: seq<byte>, o: nat, k: nat)
    requires Usable(index, bytes) && o <= k < End(index) && k <= Last(index[Slot(index, o)])
    ensures Place(index, bytes, k) == Place(index, bytes, o) + (k - o)
  {
    hide Slot, Chain, Straight;
    SlotContains(index, o);
    SlotIs(index, k, Slot(index, o));
  }

  /** Bytes before and behind a part of one extent lie elsewhere. */
  lemma PlaceApart(index: seq<DataExtent>, bytes: seq<byte>, o: nat, n: nat, k: nat)
    requires Usable(index, bytes) && o < End(index) && k < End(index) && o + n <= Last(index[Slot(index, o)]) + 1
    requires k < o || k >= o + n
    ensures Place(index, bytes, k) < Place(index, bytes, o) || Place(index, bytes, k) >= Place(index, bytes, o) + n
  {
    hide Slot, Chain, Straight;
    var i, j := Slot(index, o), Slot(index, k);
    SlotContains(index, o);
    SlotContains(index, k);
    if j < i {
      assert Apart(OnDisk(index[j]), OnDisk(index[i]));
    } else if j > i {
      assert Apart(OnDisk(index[i]), OnDisk(index[j]));
    }
  }

  // ---- New extents ----

  /** `x` may come behind all extents of an index. */
  ghost predicate Follows(index: seq<DataExtent>, bytes: seq<byte>, x: DataExtent)
    requires index != []
  {
    && Straight(x) && x.localStart <= End(index) <= Last(x) && x.offset + x.length <= |bytes|
    && forall i :: 0 <= i < |index| ==> Apart(OnDisk(index[i]), OnDisk(x))
  }

  lemma Extended(index: seq<DataExtent>, bytes: seq<byte>, c: seq<byte>, x: DataExtent)
    requires Shows(index, bytes, c) && Follows(index, bytes, x)
    ensures Slot(index, LocalLast(x)) == |index|
    ensures Shows(index + [x], bytes, c) && End(index + [x]) == Last(x) + 1
    ensures forall o: nat :: End(index) <= o <= Last(x) ==>
              Place(index + [x], bytes, o) == x.offset + (o - x.localStart)
  {
    hide Slot, Last;
    var index' := index + [x];
    ChainExtends(index, bytes, x);
    assert Usable(index', bytes);
    forall o | 0 <= o < |c| ensures bytes[Place(index', bytes, o)] == c[o] {
      assert bytes[Place(index, bytes, o)] == c[o];
      SlotContains(index, o);
      SlotIs(index', o, Slot(index, o));
    }
    forall o: nat | End(index) <= o <= Last(x) ensures Place(index', bytes, o) == x.offset + (o - x.localStart) {
      LastsBelow(index);
      SlotIs(index', o, |index|);
    }
  }

  lemma LastsBelow(index: seq<DataExtent>)
    requires Chain(index)
    ensures forall i :: 0 <= i < |index| ==> Last(index[i]) < End(index)
  {
    hide Last;
    forall i | 0 <= i < |index| ensures Last(index[i]) < End(index) {
      LastsUpTo(index, i);
    }
  }

  lemma ChainExtends(index: seq<DataExtent>, bytes: seq<byte>, x: DataExtent)
    requires Chain(index) && Follows(index, bytes, x)
    ensures Chain(index + [x]) && Slot(index, LocalLast(x)) == |index|
  {
    hide Slot, LocalLast, Last;
    LastsBelow(index);
    StraightLast(x);
    StraightNat(x);
    SlotContains(index, Last(x));
  }

  lemma StraightNat(x: DataExtent)
    requires Straight(x)
    ensures Last(x) >= 0
  {}

  /** What a file with a single extent shows. */
  lemma SingleExtent(x: DataExtent, bytes: seq<byte>, c: seq<byte>)
    requires Straight(x) && x.localStart == 0 && x.offset + x.length <= |bytes|
    ensures Usable([x], bytes) && End([x]) == x.length
    ensures Shows([x], bytes, c) <==> |c| <= x.length && c == bytes[x.offset..x.offset + |c|]
  {
    hide Slot;
    assert Usable([x], bytes);
    forall o: nat | o < x.length ensures Place([x], bytes, o) == x.offset + o {
      SlotIs([x], o, 0);
    }
    if Shows([x], bytes, c) {
      forall o | 0 <= o < |c| ensures c[o] == bytes[x.offset..x.offset + |c|][o] {
        assert bytes[Place([x], bytes, o)] == c[o];
      }
    }
    if |c| <= x.length && c == bytes[x.offset..x.offset + |c|] {
      forall o | 0 <= o < |c| ensures bytes[Place([x], bytes, o)] == c[o] {
        assert c[o] == bytes[x.offset..x.offset + |c|][o];
      }
    }
  }

  /** A search never finds an extent of which nothing is left at the offset. */
  lemma SomethingLeft(x: DataExtent, o: nat)
    requires 0 < x.length < WORD && x.localStart < WORD && x.localStart <= o <= LocalLast(x)
    ensures o - x.localStart < x.length
  {}

  /** No extent is found for the byte at `o`, or one that begins behind it. */
  predicate InHole(index: seq<DataExtent>, o: nat) {
    var i := Slot(index, o);
    i == |index| || o < index[i].localStart
  }

  /** How many of `count` bytes one read at `o` gives: up to the end of the extent found, or in a hole to its start. */
  function ReadLength(index: seq<DataExtent>, o: nat, count: nat): nat {
    var i := Slot(index, o);
    if i == |index| then count
    else if o < index[i].localStart then Min(count, index[i].localStart - o)
    else if o - index[i].localStart < index[i].length then Min(count, index[i].length - (o - index[i].localStart))
    else 0
  }

  /**
   How many of `count` bytes one write at `o` takes: up to the end of the extent found if `o` lies in it, or else all of
   them. Where none is found it is the last extent that counts, and if that is a block it becomes a cluster first.
   */
  function WriteLength(index: seq<DataExtent>, o: nat, count: nat, clusterSize: nat): nat {
    var i := Slot(index, o);
    if i < |index| then Within(index[i], o, count)
    else if index == [] then count
    else
      var x := index[|index| - 1];
      Within(if x.length == BLOCK_SIZE then Promoted(index, clusterSize) else x, o, count)
  }

  function Within(x: DataExtent, o: nat, count: nat): nat {
    if ContainsLocal(x, o) then Min(count, LocalEnd(x) - o) else count
  }

  /** The extent that a search for the last byte of the last one finds, as long as a cluster. */
  function Promoted(index: seq<DataExtent>, clusterSize: nat): DataExtent
    requires index != []
  {
    var x := index[Slot(index, LocalLast(index[|index| - 1]))];
    DataExtent(x.offset, clusterSize, x.localStart)
  }

  /** The same as far as the file knows, wherever it may be on the disk. */
  predicate SameLocal(x: DataExtent, y: DataExtent) {
    x.length == y.length && x.localStart == y.localStart
  }

  lemma LengthOfNone(o: nat, count: nat, clusterSize: nat)
    ensures WriteLength([], o, count, clusterSize) == count
  {}

  /** The length of a write in terms of the extent that counts for it. */
  lemma LengthWithin(index: seq<DataExtent>, x: DataExtent, o: nat, count: nat, clusterSize: nat)
    requires index != []
    requires Slot(index, o) < |index| ==> x == index[Slot(index, o)]
    requires Slot(index, o) == |index| ==>
      var y := index[|index| - 1]; if y.length == BLOCK_SIZE then SameLocal(x, Promoted(index, clusterSize)) else x == y
    ensures WriteLength(index, o, count, clusterSize) == Within(x, o, count)
    ensures Within(x, o, count) == if ContainsLocal(x, o) then Min(o + count, LocalEnd(x)) - o else count
  {
    hide Slot;
  }

  /** The new extent for a write at the aligned end of a file begins one cluster early. */
  lemma OneClusterEarly(o: nat, count: nat, base: nat)
    requires base > 1 && o >= base && o % base == 0 && o + count + base <= WORD
    ensures PreviousMultipleOf(o, base) == o - base
    ensures NextMultipleOf(o + count, base) >= o + count
    ensures NextMultipleOf(o + count, base) % base == 0
    ensures NextMultipleOf(o + count, base) < o + count + base
  {
    X.OneBefore(o, base);
    MultipleIs(o - base + 1, base, o - base);
  }

  /** Unless it is cut, the new extent is as long as the allocator wants it. */
  lemma NewLengthAligned(o: nat, count: nat, clusterSize: nat, max: nat)
    requires clusterSize > 1 && o >= clusterSize && o % clusterSize == 0 && o + count + 4 * clusterSize <= WORD
    ensures NewLength(o, count, clusterSize, max) == max || NewLength(o, count, clusterSize, max) % clusterSize == 0
  {
    hide PreviousMultipleOf, NextMultipleOf;
    OneClusterEarly(o, count, clusterSize);
    X.OneBefore(o, clusterSize);
    X.Difference(NextMultipleOf(o + count, clusterSize), o - clusterSize, clusterSize);
  }

  lemma MultipleIs(m: nat, base: nat, r: nat)
    requires base > 0 && r % base == 0 && r <= m < r + base
    ensures X.Multiple(m, base) == r
  {
    hide X.Multiple;
    X.MultipleUnique(X.Multiple(m, base), r, base);
  }

  // ---- The state of a big file ----

  /** The only extent is still a block, or the extents end at a cluster's end. */
  ghost predicate EndOk(index: seq<DataExtent>, clusterSize: nat) {
    && index != [] && clusterSize > 0
    && (IsBlock(index) || (AtClusterEnd(index, clusterSize) && index[|index| - 1].length != BLOCK_SIZE))
  }

  ghost predicate AtClusterEnd(index: seq<DataExtent>, clusterSize: nat) {
    index != [] && clusterSize > 0 && End(index) % clusterSize == 0 && End(index) >= clusterSize
  }

  ghost predicate IsBlock(index: seq<DataExtent>) {
    |index| == 1 && index[0].localStart == 0 && index[0].length == BLOCK_SIZE
  }

  /** The file's extents are its own. */
  ghost predicate InUse(index: seq<DataExtent>, used: set<Extent>) {
    forall i :: 0 <= i < |index| ==> OnDisk(index[i]) in used
  }

  /** A big file in good order whose first bytes are `c`. */
  ghost predicate Sound(index: seq<DataExtent>, bytes: seq<byte>, used: set<Extent>, clusterSize: nat, c: seq<byte>) {
    Shows(index, bytes, c) && InUse(index, used) && EndOk(index, clusterSize)
  }

  lemma SoundCut(index: seq<DataExtent>, bytes: seq<byte>, used: set<Extent>, clusterSize: nat, c: seq<byte>, n: nat)
    requires Sound(index, bytes, used, clusterSize, c)
    ensures Sound(index, bytes, used, clusterSize, Cut(c, n))
  {
    ShowsCut(index, bytes, c, n);
  }

  /** A file's first block. */
  lemma SoundBlock(block: Extent, bytes: seq<byte>, used: set<Extent>, clusterSize: nat, buf: seq<byte>, c: seq<byte>)
    requires block in used && block.length == BLOCK_SIZE == |buf| && block.offset + block.length <= |bytes|
    requires clusterSize > 0 && |c| <= |buf| && c == buf[..|c|]
    ensures Sound([DataExtent(block.offset, block.length, 0)], Put(bytes, block.offset, buf), used, clusterSize, c)
  {
    var x := DataExtent(block.offset, block.length, 0);
    SingleExtent(x, Put(bytes, block.offset, buf), c);
    assert OnDisk(x) == block;
  }

  ghost function Own(index: seq<DataExtent>): set<Extent> {
    set i | 0 <= i < |index| :: OnDisk(index[i])
  }

  /** A file went from one state to another and left what belongs to others alone. */
  ghost predicate MindsItsOwn(bytes: seq<byte>, used: set<Extent>, index: seq<DataExtent>,
                              bytes': seq<byte>, used': set<Extent>, index': seq<DataExtent>) {
    Spared(bytes, bytes', used - Own(index)) && used - Own(index) <= used' - Own(index')
  }

  ghost predicate AllApart(used: set<Extent>) {
    forall a, b :: a in used && b in used && a != b ==> Apart(a, b)
  }

  // ---- A write within an extent ----

  lemma SoundWrite(index: seq<DataExtent>, bytes: seq<byte>, used: set<Extent>, clusterSize: nat, c: seq<byte>,
                   o: nat, buf: seq<byte>)
    requires Sound(index, bytes, used, clusterSize, c) && o <= |c| && Slot(index, o) < |index|
    requires o + |buf| <= LocalEnd(index[Slot(index, o)]) && AllApart(used)
    ensures var x := index[Slot(index, o)];
            && ContainsLocal(x, o) && x.offset + (o - x.localStart) + |buf| <= |bytes|
            && Sound(index, Put(bytes, x.offset + (o - x.localStart), buf), used, clusterSize, Overwrite(c, o, buf))
            && MindsItsOwn(bytes, used, index, Put(bytes, x.offset + (o - x.localStart), buf), used, index)
  {
    hide Slot, Last, MindsItsOwn, Apart;
    SlotContains(index, o);
    StraightLast(index[Slot(index, o)]);
    WithinExtent(index[Slot(index, o)], o, |buf|);
    WriteMinds(index, bytes, used, Slot(index, o), Place(index, bytes, o), buf);
    WriteWithin(index, bytes, c, o, buf);
    LastsUpTo(index, Slot(index, o));
  }

  lemma WithinExtent(x: DataExtent, o: nat, n: nat)
    requires x.localStart <= o && o + n <= Last(x) + 1
    ensures x.offset + (o - x.localStart) + n <= x.offset + x.length
  {}

  /** A write that starts where no extent is found starts right behind the last one. */
  lemma SoundEnd(index: seq<DataExtent>, bytes: seq<byte>, used: set<Extent>, clusterSize: nat, c: seq<byte>, o: nat)
    requires Sound(index, bytes, used, clusterSize, c) && o <= |c|
    ensures index != []
    ensures Slot(index, o) == |index| ==> o == |c| == End(index) && !ContainsLocal(index[|index| - 1], o)
    ensures Slot(index, o) < |index| ==> ContainsLocal(index[Slot(index, o)], o)
    ensures index[|index| - 1].length != BLOCK_SIZE ==> AtClusterEnd(index, clusterSize)
    ensures index[|index| - 1].length == BLOCK_SIZE ==> IsBlock(index)
  {
    hide Slot;
    SlotContains(index, o);
    StraightLast(index[|index| - 1]);
    if Slot(index, o) < |index| { StraightLast(index[Slot(index, o)]); }
  }

  /** The extent that is found for an offset holds it; none is found only behind the known bytes. */
  lemma SoundSlot(index: seq<DataExtent>, bytes: seq<byte>, used: set<Extent>, clusterSize: nat, c: seq<byte>, o: nat)
    requires Sound(index, bytes, used, clusterSize, c)
    ensures Slot(index, o) == |index| ==> |c| <= o
    ensures Slot(index, o) < |index| ==> index[Slot(index, o)].localStart <= o
  {
    hide Slot, Chain;
    SlotContains(index, o);
  }

  lemma AgreesNothing(buf: seq<byte>, c: seq<byte>, o: nat)
    ensures |c| <= o ==> Agrees(buf, c, o)
  {}

  lemma SoundRead(index: seq<DataExtent>, bytes: seq<byte>, used: set<Extent>, clusterSize: nat, c: seq<byte>,
          o: nat, n: nat)
    requires Sound(index, bytes, used, clusterSize, c) && Slot(index, o) < |index|
    requires index[Slot(index, o)].localStart <= o
    requires n <= index[Slot(index, o)].length - (o - index[Slot(index, o)].localStart)
    ensures var x := index[Slot(index, o)]; var at := x.offset + (o - x.localStart);
            at + n <= |bytes| && Agrees(bytes[at..at + n], c, o)
  {
    hide Slot, Chain, Agrees;
    SlotContains(index, o);
    ReadWithin(index, bytes, c, o, n);
  }

  lemma AppendExtent(index: seq<DataExtent>, x: DataExtent)
    ensures M.InsertAt(index, |index|, x) == index + [x]
    ensures Slot([], LocalLast(x)) == 0
  {}

  lemma BlockSlot(index: seq<DataExtent>)
    requires IsBlock(index) && Chain(index)
    ensures |index| == 1 && index[0].localStart == 0
    ensures Slot(index, LocalLast(index[0])) == 0 && M.RemoveAt(index, 0) == []
  {
    hide Slot;
    StraightLast(index[0]);
    SlotIs(index, Last(index[0]), 0);
  }

  lemma SoundBlockSlot(index: seq<DataExtent>, bytes: seq<byte>, used: set<Extent>, clusterSize: nat, c: seq<byte>)
    requires Sound(index, bytes, used, clusterSize, c) && IsBlock(index)
    ensures |index| == 1 && index[0].localStart == 0 && index[0].offset + BLOCK_SIZE <= |bytes|
    ensures Slot(index, LocalLast(index[0])) == 0 && M.RemoveAt(index, 0) == []
  {
    BlockSlot(index);
  }

  /** A block that is turned into a cluster. */
  lemma SoundPromote(index: seq<DataExtent>, bytes: seq<byte>, used: set<Extent>, clusterSize: nat,
          c: seq<byte>, e: Extent)
    requires Sound(index, bytes, used, clusterSize, c) && IsBlock(index) && clusterSize >= BLOCK_SIZE
    requires clusterSize < WORD
    requires e.length == clusterSize && e.offset + e.length <= |bytes|
    requires forall u :: u in used - {OnDisk(index[0])} ==> Apart(u, e)
    ensures index[0].offset + BLOCK_SIZE <= |bytes|
    ensures var x := DataExtent(e.offset, e.length, 0);
            var bytes' := Put(bytes, e.offset, bytes[index[0].offset..index[0].offset + BLOCK_SIZE]);
            && Sound([x], bytes', used - {OnDisk(index[0])} + {e}, clusterSize, c)
            && AtClusterEnd([x], clusterSize)
            && MindsItsOwn(bytes, used, index, bytes', used - {OnDisk(index[0])} + {e}, [x])
  {
    hide Slot, MindsItsOwn, Apart;
    var x := DataExtent(e.offset, e.length, 0);
    var block := bytes[index[0].offset..index[0].offset + BLOCK_SIZE];
    assert index == [index[0]];
    SingleExtent(index[0], bytes, c);
    assert |c| <= BLOCK_SIZE && c == block[..|c|];
    SingleExtent(x, Put(bytes, e.offset, block), c);
    assert OnDisk(x) == e;
    PromoteMinds(index[0], bytes, used, x, block);
  }

  // ---- A write into a new extent ----

  /** The offset and length of the extent that is allocated for a write. */
  function NewStart(o: nat, clusterSize: nat): nat
    requires clusterSize > 0
  {
    PreviousMultipleOf(o, clusterSize)
  }

  function NewLength(o: nat, count: nat, clusterSize: nat, max: nat): nat
    requires clusterSize > 0
  {
    Min((NextMultipleOf(o + count, clusterSize) - NewStart(o, clusterSize)) % WORD, max)
  }

  /** Whatever the offset is, the new extent has some length. */
  lemma NewLengthSane(o: nat, count: nat, clusterSize: nat, max: nat)
    requires clusterSize > 0 && count > 0 && o + count + 4 * clusterSize <= WORD && 0 < max < WORD
    ensures 0 < NewLength(o, count, clusterSize, max) < WORD && NewStart(o, clusterSize) < WORD
  {
    hide X.Multiple;
    var end, start := NextMultipleOf(o + count, clusterSize), NewStart(o, clusterSize);
    assert (o + count + clusterSize - 1) % WORD == o + count + clusterSize - 1;
    assert o + count <= end < o + count + clusterSize;
    if o + 1 >= clusterSize {
      assert (o - clusterSize + 1) % WORD == o - clusterSize + 1;
      assert 0 < end - start < WORD;
    } else {
      assert (o - clusterSize + 1) % WORD == o - clusterSize + 1 + WORD;
      assert 0 < end - start + WORD < WORD;
      assert (end - start) % WORD == end - start + WORD;
    }
  }

  /** At a cluster's end the new extent begins one cluster early and reaches behind what is written. */
  lemma NewExtentAtEnd(o: nat, count: nat, clusterSize: nat, max: nat)
    requires clusterSize >= BLOCK_SIZE && o >= clusterSize && o % clusterSize == 0 && count > 0
    requires o + count + 4 * clusterSize <= WORD && count + clusterSize <= max < WORD
    ensures NewStart(o, clusterSize) == o - clusterSize
    ensures var n := NewLength(o, count, clusterSize, max);
            && clusterSize + count <= n < 2 * clusterSize + count && n != BLOCK_SIZE
            && (n % clusterSize == 0 ==> (o - clusterSize + n) % clusterSize == 0)
  {
    hide PreviousMultipleOf, NextMultipleOf;
    OneClusterEarly(o, count, clusterSize);
    var n := NewLength(o, count, clusterSize, max);
    X.OneBefore(o, clusterSize);
    if n % clusterSize == 0 {
      X.Sum(o - clusterSize, n, clusterSize);
    }
  }

  lemma SoundExtend(index: seq<DataExtent>, bytes: seq<byte>, used: set<Extent>, clusterSize: nat, c: seq<byte>,
                    buf: seq<byte>, max: nat, e: Extent)
    requires Sound(index, bytes, used, clusterSize, c) && |c| == End(index)
    requires AtClusterEnd(index, clusterSize) && buf != []
    requires BLOCK_SIZE <= clusterSize
    requires |c| + |buf| + 4 * clusterSize <= WORD && |buf| + clusterSize <= max < WORD
    requires e.length == NewLength(|c|, |buf|, clusterSize, max)
    requires e.length == BLOCK_SIZE || e.length % clusterSize == 0
    requires e.offset + e.length <= |bytes| && forall u :: u in used ==> Apart(u, e)
    ensures NewStart(|c|, clusterSize) == |c| - clusterSize && (|c| - NewStart(|c|, clusterSize)) % WORD == clusterSize
    ensures var x := DataExtent(e.offset, e.length, |c| - clusterSize);
            && Slot(index, LocalLast(x)) == |index| && clusterSize + |buf| <= e.length
            && Sound(index + [x], Put(bytes, e.offset + clusterSize, buf), used + {e}, clusterSize, c + buf)
            && MindsItsOwn(bytes, used, index, Put(bytes, e.offset + clusterSize, buf), used + {e}, index + [x])
  {
    hide Slot, Chain, Place, MindsItsOwn, Apart, NewStart, NewLength, Put, AtClusterEnd, Last, Straight, LocalLast;
    ClusterEndIs(index, clusterSize);
    var x := DataExtent(e.offset, e.length, |c| - clusterSize);
    ExtentAtEnd(index, clusterSize, |c|, |buf|, max, x);
    var bytes', index' := Put(bytes, e.offset + clusterSize, buf), index + [x];
    assert OnDisk(x) == e;
    ExtendMinds(index, bytes, used, x, e.offset + clusterSize, buf);
    WriteElsewhere(index, bytes, c, e, e.offset + clusterSize, buf);
    assert Follows(index, bytes', x);
    Extended(index, bytes', c, x);
    forall k | 0 <= k < |buf| ensures bytes'[Place(index', bytes', |c| + k)] == buf[k] {
      PutByte(bytes, e.offset + clusterSize, buf, k);
    }
    ShowsMore(index', bytes', c, buf);
    assert InUse(index', used + {e});
    ClusterEndIs(index', clusterSize);
  }

  lemma PutByte(bytes: seq<byte>, at: nat, buf: seq<byte>, k: nat)
    requires at + |buf| <= |bytes| && k < |buf|
    ensures Put(bytes, at, buf)[at + k] == buf[k]
  {}

  lemma ClusterEndIs(index: seq<DataExtent>, clusterSize: nat)
    requires index != [] && clusterSize > 0
    ensures AtClusterEnd(index, clusterSize) <==> End(index) % clusterSize == 0 && End(index) >= clusterSize
  {}

  /** The new extent follows the others and ends at a cluster's end. */
  /** A request for a new extent that is not aligned was cut to the greatest length. */
  /** A block that is turned into a cluster, as the writing goes about it. */
  lemma Promoting(index: seq<DataExtent>, bytes: seq<byte>, used: set<Extent>, clusterSize: nat, c: seq<byte>,
          e: Extent)
    requires Sound(index, bytes, used, clusterSize, c) && IsBlock(index) && BLOCK_SIZE <= clusterSize < WORD
    requires e.length == clusterSize && e.offset + e.length <= |bytes|
    requires forall u :: u in used - {OnDisk(index[0])} ==> Apart(u, e)
    ensures var at := Slot(index, LocalLast(index[|index| - 1]));
      && |index| == 1 && at == 0 && index[0].offset + BLOCK_SIZE <= |bytes|
      && var x := DataExtent(e.offset, e.length, index[at].localStart);
         var rest, block := M.RemoveAt(index, at), Span(bytes, Extent(index[0].offset, BLOCK_SIZE));
         var bytes', used' := Put(bytes, x.offset, block), used - {OnDisk(index[0])} + {e};
         && M.InsertAt(rest, Slot(rest, LocalLast(x)), x) == [x]
         && Sound([x], bytes', used', clusterSize, c) && AtClusterEnd([x], clusterSize)
         && MindsItsOwn(bytes, used, index, bytes', used', [x])
  {
    hide Sound, Slot, MindsItsOwn, Put, AtClusterEnd, LocalLast, IsBlock;
    SoundBlockSlot(index, bytes, used, clusterSize, c);
    SoundPromote(index, bytes, used, clusterSize, c, e);
    AppendExtent([], DataExtent(e.offset, e.length, 0));
  }

  /** The extent for a write at `o` has been filed, with the bytes written at their place in it. */
  ghost predicate Extends(index: seq<DataExtent>, bytes: seq<byte>, used: set<Extent>, clusterSize: nat, c: seq<byte>,
          o: nat, buf: seq<byte>, e: Extent)
    requires clusterSize > 0
  {
    var x := DataExtent(e.offset, e.length, NewStart(o, clusterSize));
    var at := x.offset + (o - x.localStart) % WORD;
    && at + |buf| <= |bytes|
    && var index', bytes' := M.InsertAt(index, Slot(index, LocalLast(x)), x), Put(bytes, at, buf);
       && Sound(index', bytes', used + {e}, clusterSize, c + buf)
       && MindsItsOwn(bytes, used, index, bytes', used + {e}, index')
  }

  /** The same, as the writing goes about it. */
  lemma Extending(index: seq<DataExtent>, bytes: seq<byte>, used: set<Extent>, clusterSize: nat, c: seq<byte>, o: nat,
          buf: seq<byte>, max: nat, e: Extent)
    requires Sound(index, bytes, used, clusterSize, c) && Slot(index, o) == |index| && o <= |c|
    requires AtClusterEnd(index, clusterSize) && buf != [] && BLOCK_SIZE <= clusterSize
    requires o + |buf| + 4 * clusterSize <= WORD && |buf| + clusterSize <= max < WORD
    requires e.length == NewLength(o, |buf|, clusterSize, max)
    requires e.length == BLOCK_SIZE || e.length % clusterSize == 0
    requires e.offset + e.length <= |bytes| && forall u :: u in used ==> Apart(u, e)
    ensures Extends(index, bytes, used, clusterSize, c, o, buf, e)
  {
    hide Sound, Slot, MindsItsOwn, NewStart, NewLength, Put, AtClusterEnd, LocalLast, ContainsLocal, M.InsertAt;
    SoundEnd(index, bytes, used, clusterSize, c, o);
    SoundExtend(index, bytes, used, clusterSize, c, buf, max, e);
    AppendExtent(index, DataExtent(e.offset, e.length, NewStart(o, clusterSize)));
  }

  lemma CutUnaligned(index: seq<DataExtent>, bytes: seq<byte>, used: set<Extent>, clusterSize: nat, c: seq<byte>,
          count: nat, max: nat)
    requires Sound(index, bytes, used, clusterSize, c) && |c| == End(index) && AtClusterEnd(index, clusterSize)
    requires BLOCK_SIZE <= clusterSize && |c| + count + 4 * clusterSize <= WORD
    requires NewLength(|c|, count, clusterSize, max) % clusterSize != 0
    ensures max % clusterSize != 0
  {
    hide NewLength, Sound;
    NewLengthAligned(|c|, count, clusterSize, max);
  }

  lemma ExtentAtEnd(index: seq<DataExtent>, clusterSize: nat, o: nat, count: nat, max: nat, x: DataExtent)
    requires AtClusterEnd(index, clusterSize) && o == End(index) && BLOCK_SIZE <= clusterSize && count > 0
    requires o + count + 4 * clusterSize <= WORD && count + clusterSize <= max < WORD
    requires x.localStart == o - clusterSize && x.length == NewLength(o, count, clusterSize, max)
    requires x.length == BLOCK_SIZE || x.length % clusterSize == 0
    ensures NewStart(o, clusterSize) == o - clusterSize && (o - NewStart(o, clusterSize)) % WORD == clusterSize
    ensures Straight(x) && x.localStart <= o && clusterSize + count <= x.length != BLOCK_SIZE
    ensures o + count <= Last(x) + 1 && Last(x) + 1 >= clusterSize && (Last(x) + 1) % clusterSize == 0
  {
    hide NewLength, NewStart;
    NewExtentAtEnd(o, count, clusterSize, max);
    assert Last(x) + 1 == o - clusterSize + x.length;
  }

  lemma ShowsMore(index: seq<DataExtent>, bytes: seq<byte>, c: seq<byte>, buf: seq<byte>)
    requires Shows(index, bytes, c) && |c| + |buf| <= End(index)
    requires forall k :: 0 <= k < |buf| ==> bytes[Place(index, bytes, |c| + k)] == buf[k]
    ensures Shows(index, bytes, c + buf)
  {
    hide Place, Usable;
    forall o | 0 <= o < |c + buf| ensures bytes[Place(index, bytes, o)] == (c + buf)[o] {
      if o >= |c| {
        assert bytes[Place(index, bytes, |c| + (o - |c|))] == buf[o - |c|];
      }
    }
  }

  // ---- What a file leaves alone ----

  lemma WriteMinds(index: seq<DataExtent>, bytes: seq<byte>, used: set<Extent>, i: nat, at: nat, buf: seq<byte>)
    requires Laid(index, bytes) && InUse(index, used) && AllApart(used) && i < |index|
    requires index[i].offset <= at && at + |buf| <= index[i].offset + index[i].length
    ensures at + |buf| <= |bytes| && MindsItsOwn(bytes, used, index, Put(bytes, at, buf), used, index)
  {
    assert OnDisk(index[i]) in Own(index);
    PutSpares(bytes, OnDisk(index[i]), at, buf, used - Own(index));
  }

  lemma OwnOne(x: DataExtent)
    ensures Own([x]) == {OnDisk(x)}
  {
    assert [x][0] == x;
    forall e | e in Own([x]) ensures e == OnDisk(x) {}
  }

  lemma PromoteMinds(x: DataExtent, bytes: seq<byte>, used: set<Extent>, y: DataExtent, block: seq<byte>)
    requires OnDisk(x) in used && 0 < |block| <= y.length && y.offset + y.length <= |bytes|
    requires forall u :: u in used - {OnDisk(x)} ==> Apart(u, OnDisk(y))
    ensures MindsItsOwn(bytes, used, [x], Put(bytes, y.offset, block), used - {OnDisk(x)} + {OnDisk(y)}, [y])
  {
    OwnOne(x);
    OwnOne(y);
    PutSpares(bytes, OnDisk(y), y.offset, block, used - {OnDisk(x)});
    assert OnDisk(y) !in used - {OnDisk(x)};
  }

  lemma ExtendMinds(index: seq<DataExtent>, bytes: seq<byte>, used: set<Extent>, x: DataExtent, at: nat, buf: seq<byte>)
    requires x.length > 0 && x.offset <= at && at + |buf| <= x.offset + x.length <= |bytes|
    requires forall u :: u in used ==> Apart(u, OnDisk(x))
    ensures MindsItsOwn(bytes, used, index, Put(bytes, at, buf), used + {OnDisk(x)}, index + [x])
  {
    PutSpares(bytes, OnDisk(x), at, buf, used - Own(index));
    assert OnDisk(x) !in used;
    assert Own(index + [x]) == Own(index) + {OnDisk(x)} by {
      assert (index + [x])[|index|] == x;
      forall i | 0 <= i < |index| ensures OnDisk(index[i]) in Own(index + [x]) {
        assert (index + [x])[i] == index[i];
      }
    }
  }

  lemma MindsNothing(bytes: seq<byte>, used: set<Extent>, index: seq<DataExtent>)
    ensures MindsItsOwn(bytes, used, index, bytes, used, index) && MindsItsOwn(bytes, used, index, bytes, used, [])
  {}

  lemma MindsTwice(b0: seq<byte>, u0: set<Extent>, i0: seq<DataExtent>,
          b1: seq<byte>, u1: set<Extent>, i1: seq<DataExtent>, b2: seq<byte>, u2: set<Extent>, i2: seq<DataExtent>)
    requires MindsItsOwn(b0, u0, i0, b1, u1, i1) && MindsItsOwn(b1, u1, i1, b2, u2, i2)
    ensures MindsItsOwn(b0, u0, i0, b2, u2, i2)
  {}
}
