/** A root: its inode table and directories, opening paths, and creating entities. */
module Roots {
  import opened Text
  import opened Namespace

  ghost predicate ValidTree(m: Inodes, depth: map<nat, nat>) {
    && IsTree(m, depth) && ShortLabels(m)
    && ROOT in depth && forall x :: x in depth ==> x in m
  }

  class Root {
    var inodes: Inodes
    ghost var depth: map<nat, nat>

    ghost predicate Valid()
      reads this
    {
      ValidTree(inodes, depth)
    }

    /** An empty directory that is its own parent. */
    constructor ()
      ensures Valid() && inodes == EmptyRoot()
    {
      inodes := map[];
      depth := map[ROOT := 0];
      new;
      EmptyRootIsTree();
      var st := InsertInode(ROOT, Dir(map[]));
      st := InsertEntry(ROOT, ".", ROOT);
      st := InsertEntry(ROOT, "..", ROOT);
      assert inodes == EmptyRoot();
    }

    // ---- Inodes and entries ----

    method InsertInode(id: nat, inode: Inode) returns (st: Status)
      modifies this`inodes
      ensures st == if id in old(inodes) then Exists else OK
      ensures inodes == if st == OK then WithInode(old(inodes), id, inode) else old(inodes)
    {
      if id in inodes { return Exists; }
      inodes := inodes[id := inode];
      st := OK;
    }

    method OpenDirectoryById(id: nat) returns (r: Opened)
      ensures r == OpenId(inodes, id)
    {
      if id !in inodes { return Failed(NotFound); }
      if !inodes[id].Dir? { return Failed(NotDir); }
      r := Opened(id);
    }

    method LookUp(dir: nat, name: Str) returns (st: Status, target: nat)
      requires dir in inodes && inodes[dir].Dir?
      ensures st == if Label(name) in inodes[dir].entries then OK else NotFound
      ensures st == OK ==> target == inodes[dir].entries[Label(name)]
    {
      if Label(name) !in inodes[dir].entries { return NotFound, 0; }
      return OK, inodes[dir].entries[Label(name)];
    }

    method InsertEntry(dir: nat, name: Str, id: nat) returns (st: Status)
      requires dir in inodes && inodes[dir].Dir?
      modifies this`inodes
      ensures st == if Label(name) in old(inodes)[dir].entries then Exists else OK
      ensures inodes == if st == OK then WithEntry(old(inodes), dir, Label(name), id) else old(inodes)
    {
      var dummy;
      st, dummy := LookUp(dir, name);
      if st == OK { return Exists; }
      inodes := inodes[dir := Dir(inodes[dir].entries[Label(name) := id])];
      st := OK;
    }

    /** Walks a path from the root directory. */
    method OpenDirectory(path: seq<Str>) returns (r: Opened)
      ensures r == Open(inodes, path)
    {
      r := OpenDirectoryById(ROOT);
      if r.Failed? {
        FailsEarly(inodes, path, 0);
        return;
      }
      assert path[..0] == [];
      for i := 0 to |path|
        invariant r.Opened? && r == Open(inodes, path[..i])
      {
        OpenStep(inodes, path[..i], path[i]);
        assert path[..i] + [path[i]] == path[..i + 1];
        var st, target := LookUp(r.id, path[i]);
        if st != OK {
          FailsEarly(inodes, path, i + 1);
          return Failed(st);
        }
        r := OpenDirectoryById(target);
        if r.Failed? {
          FailsEarly(inodes, path, i + 1);
          return;
        }
      }
      assert path[..|path|] == path;
    }

    // ---- Creating ----

    /** Any number may come up for a new inode. */
    method GenerateInodeId() returns (id: nat)
    {
      id := *;
    }

    /** Creates a directory as inode `id`, a number that came up for it. */
    method CreateDirectory(path: seq<Str>) returns (st: Status, ghost id: nat)
      requires Valid()
      modifies this
      ensures Valid() && Grown(old(inodes), inodes)
      ensures path == [] ==> st == OK && inodes == old(inodes)
      ensures path != [] ==> (st == OK <==> CanAdd(old(inodes), path, id))
      ensures st == OK ==> Open(inodes, path).Opened?
      ensures st == OK && path != [] ==> DirectoryAdded(old(inodes), path, id, inodes)
      ensures st == Exists ==> path != [] && Open(old(inodes), path[..|path| - 1]).Opened?
      ensures st == Exists ==> inodes == LeftBehind(old(inodes), id, Dir(map[]))
      ensures st == Exists ==> forall q :: Open(inodes, q) == Open(old(inodes), q)
      ensures st == NotFound || st == NotDir ==>
        path != [] && Open(old(inodes), path[..|path| - 1]) == Failed(st) && inodes == old(inodes)
    {
      hide ValidTree, Grown, Open, IsAddedBy, DirectoryAdded;
      GrownItself(inodes);
      if path == [] {
        RootOpens(inodes, depth);
        return OK, 0;
      }
      var parent := OpenDirectory(path[..|path| - 1]);
      if parent.Failed? { return parent.status, 0; }
      var number := GenerateInodeId();
      id := number;
      ghost var was := inodes;
      OpenedDir(inodes, path[..|path| - 1]);
      st := InsertInode(number, Dir(map[]));
      if st != OK { return; }
      Orphaned(was, depth, id, Dir(map[]));
      OrphanUnseenAnywhere(was, depth, id, Dir(map[]));
      st := InsertEntry(parent.id, path[|path| - 1], number);
      if st != OK { return; }
      st := InsertEntry(number, ".", number);
      st := InsertEntry(number, "..", parent.id);
      DirectoryComplete(was, depth, path, id, inodes);
      depth := depth[id := depth[parent.id] + 1];
    }

    /** Creates a file or anything else that is not a directory. */
    method CreateInode(path: seq<Str>, kind: nat) returns (st: Status, ghost id: nat)
      requires Valid() && path != []
      modifies this
      ensures Valid() && Grown(old(inodes), inodes)
      ensures st == OK <==> CanAdd(old(inodes), path, id)
      ensures st == NotFound || st == NotDir ==>
        Open(old(inodes), path[..|path| - 1]) == Failed(st) && inodes == old(inodes)
      ensures st == Exists ==> Open(old(inodes), path[..|path| - 1]).Opened?
      ensures st == Exists ==> inodes == LeftBehind(old(inodes), id, Other(kind))
      ensures st == Exists ==> forall q :: Open(inodes, q) == Open(old(inodes), q)
      ensures st == OK ==> IsAddedBy(old(inodes), path, id, Other(kind), inodes)
    {
      hide ValidTree, Grown, Open, IsAddedBy;
      GrownItself(inodes);
      var parent := OpenDirectory(path[..|path| - 1]);
      if parent.Failed? { return parent.status, 0; }
      var number := GenerateInodeId();
      id := number;
      ghost var was := inodes;
      OpenedDir(inodes, path[..|path| - 1]);
      st := InsertInode(number, Other(kind));
      if st != OK { return; }
      Orphaned(was, depth, id, Other(kind));
      OrphanUnseenAnywhere(was, depth, id, Other(kind));
      st := InsertEntry(parent.id, path[|path| - 1], number);
      if st != OK { return; }
      Complete(was, depth, path, id, Other(kind));
      depth := depth[id := depth[parent.id] + 1];
    }
  }

  /** The path's directory is there, has no such entry, and the number is not taken. */
  ghost predicate CanAdd(m: Inodes, path: seq<Str>, id: nat) {
    && path != [] && id !in m && Open(m, path[..|path| - 1]).Opened?
    && Label(path[|path| - 1]) !in m[Open(m, path[..|path| - 1]).id].entries
  }

  /** When the name is taken the inode stays behind without one; when the number is taken there is none. */
  ghost function LeftBehind(m: Inodes, id: nat, inode: Inode): Inodes {
    if id in m then m else WithInode(m, id, inode)
  }

  lemma OpenedDir(m: Inodes, path: seq<Str>)
    requires Open(m, path).Opened?
    ensures Open(m, path).id in m && m[Open(m, path).id].Dir?
  {}

  /** The path's directory got its last component as a new name, for a new inode. */
  ghost predicate IsAddedBy(was: Inodes, path: seq<Str>, id: nat, inode: Inode, now: Inodes) {
    && path != [] && id !in was && Open(was, path[..|path| - 1]).Opened?
    && var d := Open(was, path[..|path| - 1]).id;
    Label(path[|path| - 1]) !in was[d].entries && d != id && now == Added(was, d, Label(path[|path| - 1]), id, inode)
  }

  ghost predicate DirectoryAdded(was: Inodes, path: seq<Str>, id: nat, now: Inodes) {
    && path != [] && Open(was, path[..|path| - 1]).Opened?
    && IsAddedBy(was, path, id, Dir(map["." := id, ".." := Open(was, path[..|path| - 1]).id]), now)
  }

  lemma GrownItself(m: Inodes)
    ensures Grown(m, m)
  {
    forall d | d in m ensures GrownInode(m[d], m[d]) {}
  }

  lemma {:induction false} FailsEarly(m: Inodes, path: seq<Str>, n: nat)
    requires n <= |path| && Open(m, path[..n]).Failed?
    ensures Open(m, path) == Open(m, path[..n])
    decreases |path|
  {
    if n == |path| {
      assert path[..n] == path;
    } else {
      assert path[..|path| - 1][..n] == path[..n];
      FailsEarly(m, path[..|path| - 1], n);
    }
  }

  /** In a directory that a path opens the special names are taken. */
  lemma TakenNames(m: Inodes, depth: map<nat, nat>, path: seq<Str>, tag: Str)
    requires IsTree(m, depth) && Open(m, path).Opened? && tag !in m[Open(m, path).id].entries
    ensures Ordinary(tag)
  {
    OpenedInTree(m, depth, path);
    var p :| Dotted(m, Open(m, path).id, p);
  }

  lemma DepthOf(m: Inodes, depth: map<nat, nat>, d: nat)
    requires IsTree(m, depth) && ROOT in depth && (d == ROOT || Linked(m, d))
    ensures d in depth
  {
    if d != ROOT {
      var up, tag :| Ordinary(tag) && Entry(m, up, tag, d);
      assert Below(m, depth, up, d);
    }
  }

  lemma RootOpens(m: Inodes, depth: map<nat, nat>)
    requires ValidTree(m, depth)
    ensures Open(m, []).Opened?
  {
    assert Dotted(m, ROOT, ROOT);
  }

  /** An inode without a name is not seen on any path. */
  lemma {:induction false} OrphanUnseen(m: Inodes, depth: map<nat, nat>, id: nat, inode: Inode, path: seq<Str>)
    requires ValidTree(m, depth) && id !in m
    ensures Open(WithInode(m, id, inode), path) == Open(m, path)
    decreases |path|
  {
    if path == [] {
      assert Dotted(m, ROOT, ROOT);
    } else {
      var pre, tag := path[..|path| - 1], Label(path[|path| - 1]);
      OrphanUnseen(m, depth, id, inode, pre);
      if Open(m, pre).Opened? && tag in m[Open(m, pre).id].entries {
        NoDangling(m, depth, pre, tag);
      }
    }
  }

  lemma NoDangling(m: Inodes, depth: map<nat, nat>, path: seq<Str>, tag: Str)
    requires ValidTree(m, depth) && Open(m, path).Opened? && tag in m[Open(m, path).id].entries
    ensures m[Open(m, path).id].entries[tag] in m
  {
    var d := Open(m, path).id;
    OpenedInTree(m, depth, path);
    var p :| Dotted(m, d, p);
    if Ordinary(tag) {
      assert Entry(m, d, tag, m[d].entries[tag]);
    } else {
      ParentInTree(m, depth, d, p);
    }
  }

  lemma OrphanUnseenAnywhere(m: Inodes, depth: map<nat, nat>, id: nat, inode: Inode)
    requires ValidTree(m, depth) && id !in m
    ensures forall q :: Open(WithInode(m, id, inode), q) == Open(m, q)
  {
    forall q ensures Open(WithInode(m, id, inode), q) == Open(m, q) {
      OrphanUnseen(m, depth, id, inode, q);
    }
  }

  lemma Orphaned(m: Inodes, depth: map<nat, nat>, id: nat, inode: Inode)
    requires ValidTree(m, depth) && id !in m && (inode.Dir? ==> inode.entries == map[])
    ensures ValidTree(WithInode(m, id, inode), depth) && Grown(m, WithInode(m, id, inode))
  {
    OrphanKeepsTree(m, depth, id, inode);
  }

  /** The new inode is complete and has its name. */
  lemma Complete(m: Inodes, depth: map<nat, nat>, path: seq<Str>, id: nat, inode: Inode)
    requires ValidTree(m, depth) && path != [] && id !in m && Open(m, path[..|path| - 1]).Opened?
    requires Label(path[|path| - 1]) !in m[Open(m, path[..|path| - 1]).id].entries
    requires NewInode(inode, Open(m, path[..|path| - 1]).id, id)
    ensures var d := Open(m, path[..|path| - 1]).id;
            var m' := Added(m, d, Label(path[|path| - 1]), id, inode);
            && d in depth && ValidTree(m', depth[id := depth[d] + 1]) && Grown(m, m')
            && IsAddedBy(m, path, id, inode, m')
            && (inode.Dir? ==> Open(m', path).Opened?)
  {
    hide IsTree, ShortLabels, Linked, Grown, Open, Label;
    var pre, tag := path[..|path| - 1], Label(path[|path| - 1]);
    var d := Open(m, pre).id;
    OpenedInTree(m, depth, pre);
    TakenNames(m, depth, pre, tag);
    DepthOf(m, depth, d);
    AddedKeepsTree(m, depth, d, tag, id, inode);
    if inode.Dir? {
      AddedOpens(m, path, id, inode);
    }
  }

  lemma AddedOpens(m: Inodes, path: seq<Str>, id: nat, inode: Inode)
    requires path != [] && id !in m && Open(m, path[..|path| - 1]).Opened? && inode.Dir?
    requires Grown(m, Added(m, Open(m, path[..|path| - 1]).id, Label(path[|path| - 1]), id, inode))
    ensures Open(Added(m, Open(m, path[..|path| - 1]).id, Label(path[|path| - 1]), id, inode), path) == Opened(id)
  {
    StillOpens(m, Added(m, Open(m, path[..|path| - 1]).id, Label(path[|path| - 1]), id, inode), path[..|path| - 1]);
  }

  lemma AddedInSteps(m: Inodes, d: nat, tag: Str, id: nat)
    requires id !in m && d in m && m[d].Dir?
    ensures var named := WithEntry(WithInode(m, id, Dir(map[])), d, tag, id);
            && id in named && named[id] == Dir(map[])
            && WithEntry(WithEntry(named, id, ".", id), id, "..", d)
               == Added(m, d, tag, id, Dir(map["." := id, ".." := d]))
  {
    assert map[]["." := id][".." := d] == map["." := id, ".." := d];
  }

  lemma DirectoryComplete(m: Inodes, depth: map<nat, nat>, path: seq<Str>, id: nat, now: Inodes)
    requires ValidTree(m, depth) && path != [] && id !in m && Open(m, path[..|path| - 1]).Opened?
    requires Label(path[|path| - 1]) !in m[Open(m, path[..|path| - 1]).id].entries
    requires var d := Open(m, path[..|path| - 1]).id;
             var named := WithEntry(WithInode(m, id, Dir(map[])), d, Label(path[|path| - 1]), id);
             now == WithEntry(WithEntry(named, id, ".", id), id, "..", d)
    ensures var d := Open(m, path[..|path| - 1]).id;
            && d in depth && ValidTree(now, depth[id := depth[d] + 1]) && Grown(m, now)
            && DirectoryAdded(m, path, id, now) && Open(now, path).Opened?
  {
    hide ValidTree, Open, Label, IsAddedBy, Grown;
    var d := Open(m, path[..|path| - 1]).id;
    var inode := Dir(map["." := id, ".." := d]);
    OpenedDir(m, path[..|path| - 1]);
    AddedInSteps(m, d, Label(path[|path| - 1]), id);
    Complete(m, depth, path, id, inode);
  }
}
