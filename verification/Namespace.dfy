/** The names of a root: inodes by their number, and directories as maps from labels to numbers. */
module Namespace {
  import opened Text

  const ROOT: nat := 1024
  const MAX_LABEL_LENGTH := 256

  datatype Status = OK | NotFound | NotDir | Exists

  /** A directory with its entries, or an inode of some other type. */
  datatype Inode = Dir(entries: map<Str, nat>) | Other(kind: nat)

  type Inodes = map<nat, Inode>

  /** How a name is stored: at most so many characters of it. */
  function Label(name: Str): (tag: Str)
    ensures |tag| <= MAX_LABEL_LENGTH && (|name| <= MAX_LABEL_LENGTH ==> tag == name)
  {
    if |name| <= MAX_LABEL_LENGTH then name else name[..MAX_LABEL_LENGTH]
  }

  predicate Ordinary(tag: Str) {
    tag != "." && tag != ".."
  }

  datatype Opened = Opened(id: nat) | Failed(status: Status)

  function OpenId(m: Inodes, id: nat): Opened {
    if id !in m then Failed(NotFound) else if m[id].Dir? then Opened(id) else Failed(NotDir)
  }

  /** The directory at the end of a path. */
  function Open(m: Inodes, path: seq<Str>): (r: Opened)
    ensures r.Opened? ==> r.id in m && m[r.id].Dir?
    ensures r.Failed? ==> r.status == NotFound || r.status == NotDir
    decreases |path|
  {
    if path == [] then OpenId(m, ROOT)
    else
      var d := Open(m, path[..|path| - 1]);
      if d.Failed? then d
      else
        var tag := Label(path[|path| - 1]);
        if tag in m[d.id].entries then OpenId(m, m[d.id].entries[tag]) else Failed(NotFound)
  }

  // ---- What every reachable state is like ----

  /** The entry `label` of directory `d` points at `x`. */
  ghost predicate Entry(m: Inodes, d: nat, tag: Str, x: nat) {
    d in m && m[d].Dir? && tag in m[d].entries && m[d].entries[tag] == x
  }

  ghost predicate Linked(m: Inodes, x: nat) {
    exists d, tag :: Ordinary(tag) && Entry(m, d, tag, x)
  }

  /** Directory `d` holds itself and its parent `p` under the usual names. */
  ghost predicate Dotted(m: Inodes, d: nat, p: nat) {
    Entry(m, d, ".", d) && Entry(m, d, "..", p)
  }

  /**
   The ordinary entries form a tree below the root: each leads down (`depth` witnesses that), none leads to an inode
   that another one leads to, and directories that are in the tree know themselves and their parent. Directories that
   are not in the tree are empty.
   */
  ghost predicate IsTree(m: Inodes, depth: map<nat, nat>) {
    && Dotted(m, ROOT, ROOT)
    && (forall d, tag, x :: Ordinary(tag) && Entry(m, d, tag, x) ==> Below(m, depth, d, x))
    && (forall d, tag, d', tag', x :: Ordinary(tag) && Ordinary(tag') && Entry(m, d, tag, x) && Entry(m, d', tag', x)
          ==> d == d' && tag == tag')
    && (forall d :: d in m && m[d].Dir? && m[d].entries != map[] ==> d == ROOT || Linked(m, d))
  }

  /** `x` is in the tree right below `d`. */
  ghost predicate Below(m: Inodes, depth: map<nat, nat>, d: nat, x: nat) {
    && x in m && x != ROOT && d in depth && x in depth && depth[x] == depth[d] + 1
    && (m[x].Dir? ==> Dotted(m, x, d))
  }

  // ---- What it means for paths ----

  lemma OpenStep(m: Inodes, path: seq<Str>, name: Str)
    ensures Open(m, path + [name]) ==
            var d := Open(m, path);
            if d.Failed? then d
            else if Label(name) in m[d.id].entries then OpenId(m, m[d.id].entries[Label(name)]) else Failed(NotFound)
  {
    assert (path + [name])[..|path|] == path;
  }

  /** Whatever a path opens is in the tree, and has its two special entries. */
  lemma {:induction false} OpenedInTree(m: Inodes, depth: map<nat, nat>, path: seq<Str>)
    requires IsTree(m, depth) && Open(m, path).Opened?
    ensures var d := Open(m, path).id; (d == ROOT || Linked(m, d)) && exists p :: Dotted(m, d, p)
    decreases |path|
  {
    if path == [] {
      assert Dotted(m, ROOT, ROOT);
    } else {
      var pre, tag := path[..|path| - 1], Label(path[|path| - 1]);
      OpenedInTree(m, depth, pre);
      var d, x := Open(m, pre).id, Open(m, path).id;
      assert Entry(m, d, tag, x);
      if Ordinary(tag) {
        assert Below(m, depth, d, x);
      } else {
        var p :| Dotted(m, d, p);
        if tag == ".." {
          ParentInTree(m, depth, d, p);
        }
      }
    }
  }

  lemma ParentInTree(m: Inodes, depth: map<nat, nat>, d: nat, p: nat)
    requires IsTree(m, depth) && (d == ROOT || Linked(m, d)) && Dotted(m, d, p)
    ensures (p == ROOT || Linked(m, p)) && exists q :: Dotted(m, p, q)
  {
    if d != ROOT {
      var up, tag :| Ordinary(tag) && Entry(m, up, tag, d);
      assert Below(m, depth, up, d);
      assert up == p;
      if p != ROOT {
        var up', tag' :| Ordinary(tag') && Entry(m, up', tag', p);
        assert Below(m, depth, up', p);
      }
    } else {
      assert Dotted(m, ROOT, ROOT);
    }
  }

  /** Going to an ordinary directory and back up arrives where one started, and "." stays where one is. */
  lemma UpAgain(m: Inodes, depth: map<nat, nat>, path: seq<Str>, name: Str)
    requires IsTree(m, depth) && Ordinary(Label(name)) && Open(m, path + [name]).Opened?
    ensures Open(m, path + [name] + [".."]) == Open(m, path)
    ensures Open(m, path + [name] + ["."]) == Open(m, path + [name])
  {
    OpenStep(m, path, name);
    OpenStep(m, path + [name], "..");
    OpenStep(m, path + [name], ".");
    var d, x := Open(m, path).id, Open(m, path + [name]).id;
    assert Entry(m, d, Label(name), x);
    assert Below(m, depth, d, x);
  }

  // ---- Every inode in the tree has exactly one path of ordinary names ----

  ghost predicate OrdinaryPath(path: seq<Str>) {
    forall i :: 0 <= i < |path| ==> Ordinary(Label(path[i])) && Label(path[i]) == path[i]
  }

  /** The path leads to the inode `x`, whatever its type. */
  ghost predicate LeadsTo(m: Inodes, path: seq<Str>, x: nat) {
    if path == [] then x == ROOT
    else
      var d := Open(m, path[..|path| - 1]);
      d.Opened? && Entry(m, d.id, Label(path[|path| - 1]), x)
  }

  lemma LeadsToOpened(m: Inodes, depth: map<nat, nat>, path: seq<Str>)
    requires IsTree(m, depth) && Open(m, path).Opened?
    ensures LeadsTo(m, path, Open(m, path).id)
  {}

  lemma NotRoot(m: Inodes, depth: map<nat, nat>, path: seq<Str>, x: nat)
    requires IsTree(m, depth) && OrdinaryPath(path) && LeadsTo(m, path, x)
    ensures path == [] <==> x == ROOT
  {
    if path != [] {
      assert Below(m, depth, Open(m, path[..|path| - 1]).id, x);
    }
  }

  /** Paths to the same inode end with the same entry. */
  lemma SameParent(m: Inodes, depth: map<nat, nat>, p: seq<Str>, q: seq<Str>, x: nat)
    requires IsTree(m, depth) && OrdinaryPath(p) && OrdinaryPath(q) && LeadsTo(m, p, x) && LeadsTo(m, q, x)
    requires p != [] && q != []
    ensures var p', q' := p[..|p| - 1], q[..|q| - 1];
      && Open(m, p').Opened? && Open(m, p') == Open(m, q') && p[|p| - 1] == q[|q| - 1]
      && OrdinaryPath(p') && OrdinaryPath(q')
  {
    hide Open;
    assert Label(p[|p| - 1]) == Label(q[|q| - 1]);
  }

  lemma {:induction false} OnePath(m: Inodes, depth: map<nat, nat>, p: seq<Str>, q: seq<Str>, x: nat)
    requires IsTree(m, depth) && OrdinaryPath(p) && OrdinaryPath(q) && LeadsTo(m, p, x) && LeadsTo(m, q, x)
    ensures p == q
    decreases |p|
  {
    hide IsTree, Open, LeadsTo, Label, OrdinaryPath;
    NotRoot(m, depth, p, x);
    NotRoot(m, depth, q, x);
    if p != [] {
      var p', q' := p[..|p| - 1], q[..|q| - 1];
      SameParent(m, depth, p, q, x);
      LeadsToOpened(m, depth, p');
      LeadsToOpened(m, depth, q');
      OnePath(m, depth, p', q', Open(m, p').id);
      assert p == p' + [p[|p| - 1]] && q == q' + [q[|q| - 1]];
    }
  }

  lemma {:induction false} SomePath(m: Inodes, depth: map<nat, nat>, x: nat, n: nat) returns (path: seq<Str>)
    requires IsTree(m, depth) && ShortLabels(m) && (x == ROOT || (Linked(m, x) && x in depth && depth[x] <= n))
    ensures OrdinaryPath(path) && LeadsTo(m, path, x)
    decreases n
  {
    if x == ROOT {
      path := [];
    } else {
      var d, tag :| Ordinary(tag) && Entry(m, d, tag, x);
      assert Below(m, depth, d, x);
      assert m[d].entries != map[] by { assert tag in m[d].entries; }
      assert depth[d] <= n - 1;
      var up := SomePath(m, depth, d, n - 1);
      OpensWhereItLeads(m, up, d);
      path := up + [tag];
      assert path[..|path| - 1] == up;
    }
  }

  /** Exactly one path of ordinary names leads to an inode in the tree. */
  lemma ExactlyOnePath(m: Inodes, depth: map<nat, nat>, x: nat)
    requires IsTree(m, depth) && ShortLabels(m) && Linked(m, x)
    ensures exists p :: OrdinaryPath(p) && LeadsTo(m, p, x)
                        && forall q :: OrdinaryPath(q) && LeadsTo(m, q, x) ==> q == p
  {
    var d, tag :| Ordinary(tag) && Entry(m, d, tag, x);
    assert Below(m, depth, d, x);
    var p := SomePath(m, depth, x, depth[x]);
    forall q | OrdinaryPath(q) && LeadsTo(m, q, x) ensures q == p {
      OnePath(m, depth, q, p, x);
    }
  }

  lemma OpensWhereItLeads(m: Inodes, path: seq<Str>, d: nat)
    requires LeadsTo(m, path, d) && d in m && m[d].Dir?
    ensures Open(m, path) == Opened(d)
  {}

  /** No stored label is longer than labels are. */
  ghost predicate ShortLabels(m: Inodes) {
    forall d, tag, x :: Entry(m, d, tag, x) ==> |tag| <= MAX_LABEL_LENGTH
  }

  // ---- Adding to the tree ----

  /** Nothing that was there went away. */
  ghost predicate Grown(m: Inodes, m': Inodes) {
    forall d :: d in m ==> d in m' && GrownInode(m[d], m'[d])
  }

  ghost predicate GrownInode(i: Inode, i': Inode) {
    match i
    case Dir(entries) =>
      i'.Dir? && forall tag :: tag in entries ==> tag in i'.entries && i'.entries[tag] == entries[tag]
    case Other(_) => i' == i
  }

  lemma GrownTwice(m: Inodes, m1: Inodes, m2: Inodes)
    requires Grown(m, m1) && Grown(m1, m2)
    ensures Grown(m, m2)
  {
    forall d | d in m ensures d in m2 && GrownInode(m[d], m2[d]) {
      assert GrownInode(m[d], m1[d]) && GrownInode(m1[d], m2[d]);
    }
  }

  /** Every directory that could be opened still can, and is the same one. */
  lemma {:induction false} StillOpens(m: Inodes, m': Inodes, path: seq<Str>)
    requires Grown(m, m') && Open(m, path).Opened?
    ensures Open(m', path) == Open(m, path)
    decreases |path|
  {
    if path == [] {
      assert GrownInode(m[ROOT], m'[ROOT]);
    } else {
      StillOpens(m, m', path[..|path| - 1]);
      var d := Open(m, path[..|path| - 1]).id;
      assert GrownInode(m[d], m'[d]);
      assert GrownInode(m[Open(m, path).id], m'[Open(m, path).id]);
    }
  }

  /** All prefixes of a path that opens do. */
  lemma {:induction false} PrefixOpens(m: Inodes, path: seq<Str>, n: nat)
    requires Open(m, path).Opened? && n <= |path|
    ensures Open(m, path[..n]).Opened?
    decreases |path|
  {
    if n == |path| {
      assert path[..n] == path;
    } else {
      PrefixOpens(m, path[..|path| - 1], n);
      assert path[..|path| - 1][..n] == path[..n];
    }
  }

  /** A new inode that no entry points at yet. */
  function WithInode(m: Inodes, id: nat, inode: Inode): Inodes {
    m[id := inode]
  }

  function WithEntry(m: Inodes, d: nat, tag: Str, x: nat): Inodes
    requires d in m && m[d].Dir?
  {
    m[d := Dir(m[d].entries[tag := x])]
  }

  function EmptyRoot(): Inodes {
    map[ROOT := Dir(map["." := ROOT, ".." := ROOT])]
  }

  lemma EmptyRootIsTree()
    ensures IsTree(EmptyRoot(), map[ROOT := 0]) && ShortLabels(EmptyRoot())
  {
    assert forall d, tag, x :: Entry(EmptyRoot(), d, tag, x) ==> d == ROOT && !Ordinary(tag);
  }

  /** An inode whose name turned out to be taken stays behind without a name. */
  lemma OrphanKeepsTree(m: Inodes, depth: map<nat, nat>, id: nat, inode: Inode)
    requires IsTree(m, depth) && ShortLabels(m) && id !in m && (inode.Dir? ==> inode.entries == map[])
    ensures IsTree(WithInode(m, id, inode), depth) && ShortLabels(WithInode(m, id, inode))
    ensures Grown(m, WithInode(m, id, inode))
  {
    var m' := WithInode(m, id, inode);
    assert forall d, tag, x :: Entry(m', d, tag, x) <==> Entry(m, d, tag, x);
    LinksKept(m, depth, m', depth);
    forall d | d in m' && m'[d].Dir? && m'[d].entries != map[] ensures d == ROOT || Linked(m', d) {
      assert d == ROOT || Linked(m, d);
      if d != ROOT {
        var up, tag :| Ordinary(tag) && Entry(m, up, tag, d);
        assert Entry(m', up, tag, d);
      }
    }
    forall d | d in m ensures d in m' && GrownInode(m[d], m'[d]) {}
  }

  /** The old part of a tree that grew. */
  lemma LinksKept(m: Inodes, depth: map<nat, nat>, m': Inodes, depth': map<nat, nat>)
    requires IsTree(m, depth) && (forall d, tag, x :: Entry(m, d, tag, x) ==> Entry(m', d, tag, x))
    requires (forall x :: x in m ==> x in m' && m'[x].Dir? == m[x].Dir?)
    requires forall x :: x in depth ==> x in depth' && depth'[x] == depth[x]
    ensures Dotted(m', ROOT, ROOT)
    ensures forall d, tag, x :: Ordinary(tag) && Entry(m, d, tag, x) ==> Below(m', depth', d, x)
  {
    forall d, tag, x | Ordinary(tag) && Entry(m, d, tag, x) ensures Below(m', depth', d, x) {
      assert Below(m, depth, d, x);
    }
  }

  /** A new inode under a new name in a directory of the tree. */
  function Added(m: Inodes, d: nat, tag: Str, id: nat, inode: Inode): Inodes
    requires d in m && m[d].Dir? && d != id
  {
    WithEntry(WithInode(m, id, inode), d, tag, id)
  }

  /** What a new directory or other inode looks like once it is complete. */
  ghost predicate NewInode(inode: Inode, d: nat, id: nat) {
    inode.Dir? ==> inode.entries == map["." := id, ".." := d]
  }

  lemma AddedEntries(m: Inodes, d: nat, tag: Str, id: nat, inode: Inode)
    requires d in m && m[d].Dir? && d != id && id !in m && NewInode(inode, d, id)
    ensures var m' := Added(m, d, tag, id, inode);
            forall e, t, x :: Ordinary(t) ==>
              (Entry(m', e, t, x) <==> (e == d && t == tag && x == id) || (Entry(m, e, t, x) && !(e == d && t == tag)))
  {}

  /** Adding keeps the tree, one level deeper below its directory. */
  lemma AddedKeepsTree(m: Inodes, depth: map<nat, nat>, d: nat, tag: Str, id: nat, inode: Inode)
    requires IsTree(m, depth) && ShortLabels(m) && id !in m && d in m && m[d].Dir? && (d == ROOT || Linked(m, d))
    requires d in depth && (forall x :: x in depth ==> x in m)
    requires Ordinary(tag) && |tag| <= MAX_LABEL_LENGTH && tag !in m[d].entries && NewInode(inode, d, id)
    ensures var m' := Added(m, d, tag, id, inode);
            IsTree(m', depth[id := depth[d] + 1]) && ShortLabels(m') && Grown(m, m')
  {
    hide Entry, Below, Linked, Dotted, Added, ShortLabels, Grown;
    AddedGrows(m, d, tag, id, inode);
    AddedBelow(m, depth, d, tag, id, inode);
    AddedOnce(m, depth, d, tag, id, inode);
    AddedLinked(m, depth, d, tag, id, inode);
  }

  lemma AddedGrows(m: Inodes, d: nat, tag: Str, id: nat, inode: Inode)
    requires ShortLabels(m) && id !in m && d in m && m[d].Dir? && Dotted(m, ROOT, ROOT)
    requires Ordinary(tag) && |tag| <= MAX_LABEL_LENGTH && tag !in m[d].entries && NewInode(inode, d, id)
    ensures var m' := Added(m, d, tag, id, inode);
            ShortLabels(m') && Grown(m, m') && Dotted(m', ROOT, ROOT)
  {
    var m' := Added(m, d, tag, id, inode);
    forall e | e in m ensures e in m' && GrownInode(m[e], m'[e]) {}
    forall e, t, x | Entry(m', e, t, x) ensures |t| <= MAX_LABEL_LENGTH {
      assert Entry(m, e, t, x) || e == id || (e == d && t == tag);
    }
  }

  lemma AddedBelow(m: Inodes, depth: map<nat, nat>, d: nat, tag: Str, id: nat, inode: Inode)
    requires IsTree(m, depth) && id !in m && d in m && m[d].Dir? && d in depth && (forall x :: x in depth ==> x in m)
    requires Ordinary(tag) && tag !in m[d].entries && NewInode(inode, d, id)
    ensures var m' := Added(m, d, tag, id, inode);
            forall e, t, x :: Ordinary(t) && Entry(m', e, t, x) ==> Below(m', depth[id := depth[d] + 1], e, x)
  {
    var m', depth' := Added(m, d, tag, id, inode), depth[id := depth[d] + 1];
    AddedEntries(m, d, tag, id, inode);
    assert forall e, t, x :: Entry(m, e, t, x) ==> Entry(m', e, t, x);
    LinksKept(m, depth, m', depth');
    assert id != ROOT;
    assert Below(m', depth', d, id);
  }

  /** No inode gets a second name. */
  lemma AddedOnce(m: Inodes, depth: map<nat, nat>, d: nat, tag: Str, id: nat, inode: Inode)
    requires IsTree(m, depth) && id !in m && d in m && m[d].Dir? && Ordinary(tag) && tag !in m[d].entries
    requires NewInode(inode, d, id)
    ensures var m' := Added(m, d, tag, id, inode);
            forall e, t, e', t', x :: Ordinary(t) && Ordinary(t') && Entry(m', e, t, x) && Entry(m', e', t', x)
              ==> e == e' && t == t'
  {
    var m' := Added(m, d, tag, id, inode);
    AddedEntries(m, d, tag, id, inode);
    assert forall e, t :: Ordinary(t) ==> !Entry(m, e, t, id);
  }

  lemma AddedLinked(m: Inodes, depth: map<nat, nat>, d: nat, tag: Str, id: nat, inode: Inode)
    requires IsTree(m, depth) && id !in m && d in m && m[d].Dir? && (d == ROOT || Linked(m, d))
    requires Ordinary(tag) && tag !in m[d].entries && NewInode(inode, d, id)
    ensures var m' := Added(m, d, tag, id, inode);
            forall e :: e in m' && m'[e].Dir? && m'[e].entries != map[] ==> e == ROOT || Linked(m', e)
  {
    var m' := Added(m, d, tag, id, inode);
    AddedEntries(m, d, tag, id, inode);
    assert Entry(m', d, tag, id);
    forall e | e in m' && m'[e].Dir? && m'[e].entries != map[] ensures e == ROOT || Linked(m', e) {
      if e != id && e != ROOT {
        assert Linked(m, e);
        var up, t :| Ordinary(t) && Entry(m, up, t, e);
        assert Entry(m', up, t, e);
      }
    }
  }
}
