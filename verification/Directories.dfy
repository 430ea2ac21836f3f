/**
 A directory as it is stored: a Bm+tree of entries filed under the hash of their label, where labels may share a hash.
 It says when the directories of the namespace, which are maps from labels, are what the trees hold.
 */
module Directories {
  import opened BmTreeModel
  import opened Text
  import B = BmTreeBlocks
  import C = BmTreeCounts
  import L = BmTreeLocate
  import M = BmTreeModel
  import N = Namespace
  import O = BmTreeOrder
  import S = BmTreeSearch
  import T = BmTreeContainer
  import W = BmTreeLeaves
  import X = BmTreeNodes

  const MAX_COLLISIONS := 32

  datatype DirectoryEntry = DirectoryEntry(tag: Str, id: nat)

  datatype Outcome = Ok | Exists | Missing | Full

  /** What the records of a tree stand for. */
  type Decoder = int -> DirectoryEntry

  /** Some entry in `es` has the label. */
  ghost predicate IsNamed(of: Decoder, es: seq<Entry>, tag: Str) {
    exists e :: e in es && of(e.rec).tag == tag
  }

  ghost predicate Filed(of: Decoder, hash: Str -> nat, es: seq<Entry>) {
    forall e :: e in es ==> e.key == hash(of(e.rec).tag)
  }

  ghost predicate Distinct(of: Decoder, es: seq<Entry>) {
    forall i, j :: 0 <= i < j < |es| ==> of(es[i].rec).tag != of(es[j].rec).tag
  }

  /** No more labels share a hash than a look-up goes through. */
  ghost predicate Sparse(es: seq<Entry>) {
    forall k: int :: |S.Matching(es, k)| <= MAX_COLLISIONS
  }

  /** The entries make up a map from labels to inodes that look-ups see as a whole. */
  ghost predicate MapLike(of: Decoder, es: seq<Entry>) {
    Distinct(of, es) && Sparse(es)
  }

  /** The entries stand for the directory `m` of the namespace. */
  ghost predicate Represents(of: Decoder, es: seq<Entry>, m: map<Str, nat>) {
    && (forall tag :: tag in m <==> IsNamed(of, es, tag))
    && forall e :: e in es ==> of(e.rec).tag in m && of(e.rec).id == m[of(e.rec).tag]
  }

  // ---- Looking up ----

  /** What a look-up goes through in an ordered tree: the last entries with the hash. */
  ghost function Candidates(hash: Str -> nat, es: seq<Entry>, tag: Str): seq<Entry> {
    S.AtMost(S.Matching(es, hash(tag)), MAX_COLLISIONS)
  }

  lemma AllCandidates(of: Decoder, hash: Str -> nat, es: seq<Entry>, tag: Str)
    requires Filed(of, hash, es) && MapLike(of, es)
    ensures IsNamed(of, Candidates(hash, es, tag), tag) <==> IsNamed(of, es, tag)
  {
    hide S.Matching;
    S.MatchingAll(es, hash(tag));
    if e :| e in es && of(e.rec).tag == tag {
      assert e in S.Matching(es, hash(tag));
    }
  }

  lemma FoundThere(of: Decoder, es: seq<Entry>, found: seq<Entry>, i: nat)
    requires i < |found| && multiset(found) <= multiset(es)
    ensures found[i] in es && IsNamed(of, found, of(found[i].rec).tag)
  {
    assert found[i] in multiset(found);
  }

  lemma FirstThere(of: Decoder, found: seq<Entry>, i: nat, tag: Str)
    requires i < |found| && of(found[i].rec).tag == tag && forall j :: 0 <= j < i ==> of(found[j].rec).tag != tag
    ensures IsFirst(of, found, tag, of(found[i].rec))
  {}

  lemma NotNamed(of: Decoder, es: seq<Entry>, m: map<Str, nat>, tag: Str)
    requires Represents(of, es, m)
    ensures IsNamed(of, es, tag) <==> tag in m
    ensures forall e :: e in es && of(e.rec).tag == tag ==> tag in m && m[tag] == of(e.rec).id
  {}

  /** `x` is the first one in `es` with the label. */
  ghost predicate IsFirst(of: Decoder, es: seq<Entry>, tag: Str, x: DirectoryEntry) {
    exists i ::
      0 <= i < |es| && of(es[i].rec) == x && x.tag == tag && forall j :: 0 <= j < i ==> of(es[j].rec).tag != tag
  }

  lemma NoneThere(of: Decoder, found: seq<Entry>, tag: Str)
    requires forall j :: 0 <= j < |found| ==> of(found[j].rec).tag != tag
    ensures !IsNamed(of, found, tag)
  {}

  // ---- Inserting ----

  lemma MatchingGrows(es: seq<Entry>, at: nat, e: Entry, key: int)
    requires at <= |es|
    ensures |S.Matching(InsertAt(es, at, e), key)| == |S.Matching(es, key)| + if e.key == key then 1 else 0
  {
    hide S.Matching;
    assert es == es[..at] + es[at..];
    S.MatchingConcat(es[..at], es[at..], key);
    S.MatchingConcat(es[..at] + [e], es[at..], key);
    S.MatchingConcat(es[..at], [e], key);
    S.MatchingStep([e], key);
    S.MatchingNone([], key);
    assert [e][..0] == [] && InsertAt(es, at, e) == es[..at] + [e] + es[at..];
  }

  /** A new label keeps the map exactly when its hash is not yet shared by as many as a look-up goes through. */
  lemma NewLabel(of: Decoder, es: seq<Entry>, at: nat, e: Entry)
    requires MapLike(of, es) && at <= |es| && !IsNamed(of, es, of(e.rec).tag)
    ensures MapLike(of, InsertAt(es, at, e)) <==> |S.Matching(es, e.key)| < MAX_COLLISIONS
  {
    hide S.Matching;
    var es' := InsertAt(es, at, e);
    forall i, j | 0 <= i < j < |es'| ensures of(es'[i].rec).tag != of(es'[j].rec).tag {
      assert i != at ==> es'[i] in es;
      assert j != at ==> es'[j] in es;
      assert es'[i] == if i < at then es[i] else if i == at then e else es[i - 1];
      assert es'[j] == if j < at then es[j] else if j == at then e else es[j - 1];
    }
    MatchingGrows(es, at, e, e.key);
    if |S.Matching(es, e.key)| < MAX_COLLISIONS {
      forall k: int ensures |S.Matching(es', k)| <= MAX_COLLISIONS {
        MatchingGrows(es, at, e, k);
      }
    }
  }

  lemma Represented(of: Decoder, es: seq<Entry>, at: nat, e: Entry, m: map<Str, nat>)
    requires Represents(of, es, m) && at <= |es| && of(e.rec).tag !in m
    ensures Represents(of, InsertAt(es, at, e), m[of(e.rec).tag := of(e.rec).id])
  {
    var es', m' := InsertAt(es, at, e), m[of(e.rec).tag := of(e.rec).id];
    B.InsertBag(es, at, e);
    assert forall x :: x in es' <==> x in es || x == e by {
      assert forall x :: x in es' <==> x in multiset(es');
    }
    forall tag ensures tag in m' <==> IsNamed(of, es', tag) {
      assert tag in m' <==> tag in m || tag == of(e.rec).tag;
    }
  }

  lemma StillFiled(of: Decoder, hash: Str -> nat, es: seq<Entry>, at: nat, e: Entry)
    requires Filed(of, hash, es) && at <= |es| && e.key == hash(of(e.rec).tag)
    ensures Filed(of, hash, InsertAt(es, at, e))
  {}

  class Directory {
    const entries: T.BmTree
    const hash: Str -> nat
    const of: Decoder

    ghost predicate Valid()
      reads this, entries
    {
      entries.Valid() && entries.levels != [] && Filed(of, hash, entries.Contents())
    }

    /** The tree is ordered and its entries make up a map. */
    ghost predicate IsMap()
      reads this, entries
      requires entries.levels != []
    {
      O.Ordered(entries.Now()) && MapLike(of, entries.Contents())
    }

    /** What a look-up of the label goes through, in any tree. */
    ghost function Searched(tag: Str): seq<Entry>
      reads this, entries
    {
      var t := entries.Now();
      if t.levels == [] || L.Target(t, hash(tag)) >= |t.levels[0]| then []
      else S.FoundFrom(t, L.Target(t, hash(tag)), hash(tag), MAX_COLLISIONS, true).1
    }

    /** Where the tree puts an entry with this key. */
    ghost function PlaceFor(key: int): nat
      reads this, entries
      requires entries.levels != []
    {
      var t := entries.Now();
      L.LeafPosition(t, L.Target(t, key), L.LeafIndex(L.LeafEnts(t, L.Target(t, key)), key))
    }

    constructor (entries: T.BmTree, hash: Str -> nat, of: Decoder)
      requires entries.Valid() && entries.Contents() == [] && entries.levels != []
      ensures this.entries == entries && this.hash == hash && this.of == of && Valid()
    {
      this.entries, this.hash, this.of := entries, hash, of;
    }

    /**
     The first one with the label among the entries with its hash, as many as are gone through: the one of the
     namespace's directory `m`, if the tree makes up a map.
     */
    method LookUp(name: Str, ghost m: map<Str, nat>) returns (st: Outcome, target: DirectoryEntry)
      requires Valid()
      ensures st == if IsNamed(of, Searched(N.Label(name)), N.Label(name)) then Ok else Missing
      ensures st == Ok ==> IsFirst(of, Searched(N.Label(name)), N.Label(name), target)
      ensures st == Ok ==> target.tag == N.Label(name) && exists e :: e in entries.Contents() && of(e.rec) == target
      ensures O.Ordered(entries.Now()) ==>
        (st == Ok <==> IsNamed(of, Candidates(hash, entries.Contents(), N.Label(name)), N.Label(name)))
      ensures IsMap() && Represents(of, entries.Contents(), m) ==>
        && st == (if N.Label(name) in m then Ok else Missing)
        && (st == Ok ==> target.id == m[N.Label(name)])
    {
      hide M.LevelOk, M.Blocks, M.BlocksOk, M.Flat, L.LeafIndex, L.Target, O.Ordered, S.Matching, S.AtMost;
      hide S.FoundFrom, MapLike, IsNamed, IsFirst, Filed, Represents;
      var tag := N.Label(name);
      var status, values;
      ghost var found;
      status, values, found := entries.SearchAll(hash(tag), MAX_COLLISIONS, true);
      target := DirectoryEntry(tag, 0);
      if IsMap() && Represents(of, entries.Contents(), m) {
        AllCandidates(of, hash, entries.Contents(), tag);
        NotNamed(of, entries.Contents(), m, tag);
      }
      var i := 0;
      while i < |values|
        invariant i <= |values| == |found|
        invariant forall j :: 0 <= j < i ==> of(found[j].rec).tag != tag
      {
        if of(values[i]).tag == tag {
          FoundThere(of, entries.Contents(), found, i);
          FirstThere(of, found, i, tag);
          return Ok, of(values[i]);
        }
        i := i + 1;
      }
      NoneThere(of, found, tag);
      st := Missing;
    }

    /** Files the entry that `rec` stands for, unless its label is found or the tree lacks the blocks for it. */
    method Insert(rec: int, ghost m: map<Str, nat>) returns (st: Outcome)
      requires Valid() && |of(rec).tag| <= N.MAX_LABEL_LENGTH
      modifies entries
      ensures st ==
        if old(IsNamed(of, Searched(of(rec).tag), of(rec).tag)) then Exists
        else if old(C.Taken(entries.caps, entries.Now(), hash(of(rec).tag)) > |entries.pool|) then Full
        else Ok
      ensures st == Exists ==> entries.Now() == old(entries.Now())
      ensures st == Full ==>
        X.StuntedTo(entries.caps, old(entries.Now()), 0, old(L.Target(entries.Now(), hash(of(rec).tag))), entries.Now())
      ensures st == Ok ==>
        && Valid() && entries.levels != []
        && var at, e := old(PlaceFor(hash(of(rec).tag))), Entry(hash(of(rec).tag), rec);
           at <= |old(entries.Contents())| && entries.Contents() == InsertAt(old(entries.Contents()), at, e)
      ensures old(IsMap() && Represents(of, entries.Contents(), m)) ==>
        && (st == Exists <==> of(rec).tag in m)
        && (st == Ok <==>
              of(rec).tag !in m && old(C.Taken(entries.caps, entries.Now(), hash(of(rec).tag)) <= |entries.pool|))
        && (st == Ok ==> Represents(of, entries.Contents(), m[of(rec).tag := of(rec).id]))
        && (st == Ok ==>
              (IsMap() <==>
                 && !old(O.Misplaces(entries.caps, entries.Now(), hash(of(rec).tag)))
                 && |S.Matching(old(entries.Contents()), hash(of(rec).tag))| < MAX_COLLISIONS))
    {
      hide M.LevelOk, M.Blocks, M.BlocksOk, M.Flat, InsertAt, L.LeafIndex, L.LeafPosition, L.Target, W.LeafPlaced;
      hide O.Ordered, O.Misplaces, O.Leaning, S.Matching, MapLike, IsNamed, IsFirst, Filed, Candidates, Represents;
      hide C.Taken, S.FoundFrom, X.GrownTo, X.StuntedTo;
      var entry := of(rec);
      var dummy;
      st, dummy := LookUp(entry.tag, m);
      if st == Ok { return Exists; }
      ghost var es := entries.Contents();
      var status;
      ghost var at;
      status, at := entries.Insert(hash(entry.tag), rec);
      if status.NoSpace? { return Full; }
      ghost var e := Entry(hash(entry.tag), rec);
      B.InsertBag(es, at, e);
      StillFiled(of, hash, es, at, e);
      if old(IsMap() && Represents(of, entries.Contents(), m)) {
        NotNamed(of, es, m, entry.tag);
        NewLabel(of, es, at, e);
        Represented(of, es, at, e, m);
      }
      st := Ok;
    }
  }
}
