/** Making directories from the command line, with their parents if that is asked for. */
module Mkdir {
  import opened Text
  import opened Namespace
  import opened Roots

  /** How many components of a path are there, one after the other. */
  ghost function Known(m: Inodes, path: seq<Str>): (n: nat)
    ensures n <= |path|
  {
    if path == [] then 0
    else
      var n := Known(m, path[..|path| - 1]);
      if n == |path| - 1 && Open(m, path).Opened? then |path| else n
  }

  /**
   The path's first missing component has no entry at all where it belongs. It is the last one, or parents are made and
   all after it are ordinary names.
   */
  ghost predicate CanMake(m: Inodes, path: seq<Str>, createParents: bool) {
    path == [] ||
      var k := Known(m, path);
      && k < |path| && Open(m, path[..k]).Opened? && Label(path[k]) !in m[Open(m, path[..k]).id].entries
      && (k == |path| - 1 || createParents)
      && forall j :: k < j < |path| ==> Ordinary(Label(path[j]))
  }

  /** The numbers that came up are not in use, and none came up twice. */
  ghost predicate Fresh(ids: seq<nat>, m: Inodes) {
    && (forall i :: 0 <= i < |ids| ==> ids[i] !in m)
    && forall i, j :: 0 <= i < j < |ids| ==> ids[i] != ids[j]
  }

  ghost function Numbers(ids: seq<nat>): set<nat> {
    set x | x in ids
  }

  /** A directory with nothing but its dots. */
  ghost predicate Bare(m: Inodes, path: seq<Str>) {
    Open(m, path).Opened? && m[Open(m, path).id].entries.Keys == {".", ".."}
  }

  /**
   Makes a directory; `ok` is false where an exception would report a failure. The number of components bounds the
   recursion: the empty path is never missing. `ids` are the numbers that came up for new inodes.
   */
  method MakeDirectory(root: Root, path: seq<Str>, createParents: bool) returns (ok: bool, ghost ids: seq<nat>)
    requires root.Valid()
    modifies root
    ensures path == [] ==> ok && root.inodes == old(root.inodes)
    ensures root.Valid() && Grown(old(root.inodes), root.inodes)
    ensures ok <==> old(CanMake(root.inodes, path, createParents)) && Fresh(ids, old(root.inodes))
    ensures root.inodes.Keys == old(root.inodes.Keys) + Numbers(ids)
    ensures ok ==> |ids| == |path| - old(Known(root.inodes, path))
    ensures ok && path != [] ==> Bare(root.inodes, path)
    ensures ok ==> forall n :: 0 <= n <= |path| ==> Open(root.inodes, path[..n]).Opened?
    ensures forall q :: old(Open(root.inodes, q)).Opened? ==> Open(root.inodes, q) == old(Open(root.inodes, q))
    decreases |path|
  {
    hide Grown, Open, ValidTree, CanMake, Known, Bare, Fresh;
    ghost var before := root.inodes;
    RootOpens(root.inodes, root.depth);
    var status;
    ghost var id;
    status, id := root.CreateDirectory(path);
    ids := [];
    if path == [] {
      NothingToMake(before, createParents);
    } else {
      CreatedOutcome(status, before, root.inodes, path, id, createParents);
    }
    if status == NotFound && createParents {
      ParentFails(before, path, true);
      var parents;
      parents, ids := MakeDirectory(root, path[..|path| - 1], createParents);
      StillOpensAll(before, root.inodes);
      if !parents { return false, ids; }
      ghost var between := root.inodes;
      assert path[..|path| - 1][..|path| - 1] == path[..|path| - 1];
      status, id := root.CreateDirectory(path);
      GrownTwice(before, between, root.inodes);
      CreatedAfter(status, before, between, root.inodes, path, ids, id);
      ids := ids + [id];
    } else if path != [] && (status == OK || status == Exists) {
      ids := [id];
    }
    StillOpensAll(before, root.inodes);
    ok := status == OK;
    if ok { AllPrefixesOpen(root.inodes, path); }
  }

  lemma NothingToMake(m: Inodes, createParents: bool)
    ensures CanMake(m, [], createParents) && Fresh([], m) && Known(m, []) == 0
  {}

  lemma {:induction false} KnownOpens(m: Inodes, path: seq<Str>)
    requires Open(m, []).Opened?
    ensures Open(m, path[..Known(m, path)]).Opened?
    ensures Known(m, path) < |path| ==> Open(m, path) == Open(m, path[..Known(m, path) + 1]) && Open(m, path).Failed?
    ensures Open(m, path).Opened? ==> Known(m, path) == |path|
    decreases |path|
  {
    if path != [] {
      var pp, n := path[..|path| - 1], Known(m, path);
      KnownOpens(m, pp);
      assert path[..|path|] == path;
      if n < |path| - 1 { assert pp[..n] == path[..n] && pp[..n + 1] == path[..n + 1]; }
    }
  }

  /** The parent is there, so it is the last component that matters. */
  lemma ParentThere(m: Inodes, path: seq<Str>, createParents: bool)
    requires path != [] && Open(m, []).Opened? && Open(m, path[..|path| - 1]).Opened?
    ensures CanMake(m, path, createParents)
       <==> Label(path[|path| - 1]) !in m[Open(m, path[..|path| - 1]).id].entries
    ensures CanMake(m, path, createParents) ==> Known(m, path) == |path| - 1
  {
    KnownOpens(m, path[..|path| - 1]);
    KnownOpens(m, path);
  }

  lemma KnownStays(m: Inodes, path: seq<Str>)
    requires path != [] && Open(m, []).Opened? && Open(m, path[..|path| - 1]).Failed?
    ensures path[..|path| - 1] != [] && Known(m, path) == Known(m, path[..|path| - 1]) < |path| - 1
  {
    var pp := path[..|path| - 1];
    KnownOpens(m, pp);
    assert pp[..|pp|] == pp;
  }

  /** Behind a directory that opens a component without an entry is missing, and not just no directory. */
  lemma OpenAfter(m: Inodes, path: seq<Str>)
    requires path != [] && Open(m, path[..|path| - 1]).Opened?
    ensures Label(path[|path| - 1]) !in m[Open(m, path[..|path| - 1]).id].entries ==> Open(m, path) == Failed(NotFound)
  {}

  /** A component of the parent's path is missing or no directory. */
  lemma ParentFails(m: Inodes, path: seq<Str>, createParents: bool)
    requires path != [] && Open(m, []).Opened? && Open(m, path[..|path| - 1]).Failed?
    ensures path[..|path| - 1] != [] && Known(m, path) == Known(m, path[..|path| - 1])
    ensures Open(m, path[..|path| - 1]) == Failed(NotDir) || !createParents ==> !CanMake(m, path, createParents)
    ensures CanMake(m, path, true)
       <==> CanMake(m, path[..|path| - 1], true) && Ordinary(Label(path[|path| - 1]))
  {
    hide Label, Open;
    var pp := path[..|path| - 1];
    var k := Known(m, pp);
    KnownOpens(m, pp);
    assert pp[..|pp|] == pp;
    KnownStays(m, path);
    assert pp[..k] == path[..k] && pp[k] == path[k] && path[..k + 1][..k] == path[..k] && pp[..k + 1] == path[..k + 1];
    OpenAfter(m, path[..k + 1]);
    assert forall j :: k < j < |pp| ==> pp[j] == path[j];
  }

  /** How making a directory by itself comes out. */
  lemma CreatedOutcome(status: Status, m: Inodes, m': Inodes, path: seq<Str>, id: nat, createParents: bool)
    requires path != [] && Open(m, []).Opened? && Grown(m, m')
    requires status == OK <==> CanAdd(m, path, id)
    requires status == OK ==> DirectoryAdded(m, path, id, m')
    requires status == Exists ==>
      Open(m, path[..|path| - 1]).Opened? && m' == LeftBehind(m, id, Dir(map[]))
    requires status == NotFound || status == NotDir ==> Open(m, path[..|path| - 1]) == Failed(status) && m' == m
    ensures status == OK || status == Exists ==>
      && (status == OK <==> CanMake(m, path, createParents) && Fresh([id], m))
      && m'.Keys == m.Keys + {id}
    ensures status == OK ==> Known(m, path) == |path| - 1 && Bare(m', path)
    ensures status == NotDir || (status == NotFound && !createParents) ==> !CanMake(m, path, createParents)
    ensures status == NotFound || status == NotDir ==> m' == m && Fresh([], m)
  {
    hide Grown, Open, CanMake, Known, ValidTree;
    if status == OK || status == Exists {
      ParentThere(m, path, createParents);
      OneMore(m, [], id);
      assert [] + [id] == [id] && Numbers([]) == {};
      assert status == Exists ==> m'.Keys == m.Keys + {id};
    } else {
      ParentFails(m, path, createParents);
    }
    if status == OK { AddedBare(m, path, id, m'); }
  }

  lemma AddedBare(m: Inodes, path: seq<Str>, id: nat, m': Inodes)
    requires Grown(m, m') && DirectoryAdded(m, path, id, m')
    ensures Bare(m', path) && m'.Keys == m.Keys + {id}
  {
    hide Grown, Open;
    var d := Open(m, path[..|path| - 1]).id;
    AddedOpens(m, path, id, Dir(map["." := id, ".." := d]));
  }

  /** How making a directory comes out whose parent has just been made. */
  lemma CreatedAfter(status: Status, m: Inodes, m1: Inodes, m': Inodes, path: seq<Str>, ids: seq<nat>, id: nat)
    requires path != [] && Open(m, []).Opened? && Open(m, path[..|path| - 1]) == Failed(NotFound)
    requires CanMake(m, path[..|path| - 1], true) && Fresh(ids, m) && Bare(m1, path[..|path| - 1])
    requires m1.Keys == m.Keys + Numbers(ids)
    requires Grown(m1, m') && (status == OK <==> CanAdd(m1, path, id))
    requires status == OK ==> DirectoryAdded(m1, path, id, m')
    requires status == Exists ==> m' == LeftBehind(m1, id, Dir(map[]))
    requires status == OK || status == Exists
    ensures status == OK <==> CanMake(m, path, true) && Fresh(ids + [id], m)
    ensures m'.Keys == m.Keys + Numbers(ids + [id])
    ensures status == OK ==> Bare(m', path)
  {
    hide Grown, Open, CanMake, Known;
    ParentFails(m, path, true);
    if status == OK { AddedBare(m1, path, id, m'); }
    OneMore(m, ids, id);
    assert m'.Keys == m1.Keys + {id};
    assert Label(path[|path| - 1]) in m1[Open(m1, path[..|path| - 1]).id].entries.Keys
      <==> !Ordinary(Label(path[|path| - 1]));
  }

  lemma OneMore(m: Inodes, ids: seq<nat>, id: nat)
    requires Fresh(ids, m)
    ensures Fresh(ids + [id], m) <==> id !in m.Keys + Numbers(ids)
    ensures Numbers(ids + [id]) == Numbers(ids) + {id}
  {
    assert forall x :: x in ids + [id] <==> x in ids || x == id;
    if id !in m.Keys + Numbers(ids) {
      assert forall i :: 0 <= i < |ids| ==> ids[i] in ids;
    } else if id in ids {
      var i :| 0 <= i < |ids| && ids[i] == id;
      assert (ids + [id])[i] == (ids + [id])[|ids|];
    } else {
      assert (ids + [id])[|ids|] in m;
    }
  }

  lemma StillOpensAll(m: Inodes, m': Inodes)
    requires Grown(m, m')
    ensures forall q :: Open(m, q).Opened? ==> Open(m', q) == Open(m, q)
  {
    forall q | Open(m, q).Opened? ensures Open(m', q) == Open(m, q) {
      StillOpens(m, m', q);
    }
  }

  lemma AllPrefixesOpen(m: Inodes, path: seq<Str>)
    requires Open(m, path).Opened?
    ensures forall n :: 0 <= n <= |path| ==> Open(m, path[..n]).Opened?
  {
    forall n | 0 <= n <= |path| ensures Open(m, path[..n]).Opened? {
      PrefixOpens(m, path, n);
    }
  }
}
