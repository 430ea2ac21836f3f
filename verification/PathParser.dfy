/** Paths, how they are written, and how they are read. */
module PathParser {
  import opened Text

  datatype Path = Path(partition: Str, root: Str, components: seq<Str>)

  // ---- Reading the part behind the colons ----

  /** The first index from `i` on that holds no slash. */
  function SkipSlashes(s: Str, i: nat): (r: nat)
    requires i <= |s|
    ensures i <= r <= |s| && (r < |s| ==> s[r] != '/')
    decreases |s| - i
  {
    if i < |s| && s[i] == '/' then SkipSlashes(s, i + 1) else i
  }

  function Components(local: Str): (r: seq<Str>)
    requires |local| < NPOS
    decreases |local|
  {
    var i := Find(local, '/', 0);
    if i == NPOS then (if local == "" then [] else [local])
    else [local[..i]] + Components(local[SkipSlashes(local, i)..])
  }

  method ParseComponents(local: Str) returns (components: seq<Str>)
    requires |local| < NPOS
    ensures components == Components(local)
  {
    hide Components, Substr;
    var rest := local;
    components := [];
    var slash := Find(rest, '/', 0);
    while slash != NPOS
      invariant |rest| < NPOS && slash == Find(rest, '/', 0) && components + Components(rest) == Components(local)
      decreases |rest|
    {
      var end := slash;
      while At(rest, end) == '/'
        invariant slash <= end <= |rest| && SkipSlashes(rest, end) == SkipSlashes(rest, slash)
        decreases |rest| - end
      {
        end := end + 1;
      }
      NextComponent(components, rest, slash, end);
      components := components + [Substr(rest, 0, slash)];
      rest := Substr(rest, end, NPOS);
      slash := Find(rest, '/', 0);
    }
    LastComponent(rest);
    if rest != "" {
      components := components + [rest];
    }
  }

  lemma NextComponent(done: seq<Str>, rest: Str, slash: nat, end: nat)
    requires |rest| < NPOS && slash == Find(rest, '/', 0) != NPOS && end == SkipSlashes(rest, slash)
    ensures slash < end <= |rest| && |Substr(rest, end, NPOS)| == |rest| - end
    ensures done + Components(rest) == done + [Substr(rest, 0, slash)] + Components(Substr(rest, end, NPOS))
  {
    assert Substr(rest, end, NPOS) == rest[end..] && Substr(rest, 0, slash) == rest[..slash];
    assert Components(rest) == [rest[..slash]] + Components(rest[end..]);
  }

  lemma LastComponent(rest: Str)
    requires |rest| < NPOS && Find(rest, '/', 0) == NPOS
    ensures Components(rest) == if rest == "" then [] else [rest]
  {}

  // ---- Reading a path ----

  /** The partition, the root, and the offset of the colon behind them, as offsets wrap around where there is none. */
  function Prefixes(path: Str): (r: (Str, Str, nat))
    requires |path| < NPOS
    ensures r.2 == NPOS || r.2 < |path|
  {
    var first := Find(path, ':', 0);
    if first == NPOS then ("", "", NPOS)
    else
      var second := Find(path, ':', first + 1);
      if second == NPOS then ("", path[..first], first) else (path[..first], path[first + 1..second], second)
  }

  /** What is left for the components. */
  function Local(path: Str, lastColon: nat): (r: Str)
    requires 0 < |path| < NPOS - 1 && (lastColon == NPOS || lastColon < |path|)
    ensures |r| < NPOS
  {
    var pos := if At(path, (lastColon + 1) % WORD) == '/' then (lastColon + 2) % WORD else (lastColon + 1) % WORD;
    Substr(path, pos, if path[|path| - 1] == '/' then (|path| - lastColon - 2) % WORD else NPOS)
  }

  function Parsed(path: Str): Path
    requires 0 < |path| < NPOS - 1
  {
    var (partition, root, lastColon) := Prefixes(path);
    Path(partition, root, Components(Local(path, lastColon)))
  }

  method Parse(path: Str) returns (p: Path)
    requires 0 < |path| < NPOS - 1
    ensures p == Parsed(path)
  {
    var partition: Str, root: Str := "", "";
    var lastColon: nat := NPOS;
    var first := Find(path, ':', 0);
    if first != NPOS {
      var second := Find(path, ':', first + 1);
      if second != NPOS {
        partition := Substr(path, 0, first);
        root := Substr(path, first + 1, second - first - 1);
        lastColon := second;
      } else {
        root := Substr(path, 0, first);
        lastColon := first;
      }
    }
    var components := ParseComponents(Local(path, lastColon));
    p := Path(partition, root, components);
  }

  // ---- Writing a path ----

  function Slashed(components: seq<Str>): Str {
    if components == [] then "" else Slashed(components[..|components| - 1]) + "/" + components[|components| - 1]
  }

  function Prefix(p: Path): Str {
    (if p.partition != "" && p.root != "" then p.partition + ":" else "") + if p.root != "" then p.root + ":" else ""
  }

  function Unparsed(p: Path): (r: Str)
    ensures r != ""
  {
    SlashedNotEmpty(p.components);
    Prefix(p) + if p.components == [] then "/" else Slashed(p.components)
  }

  lemma SlashedNotEmpty(components: seq<Str>)
    ensures components != [] ==> Slashed(components) != "" && Slashed(components)[0] == '/'
  {
    if components != [] {
      SlashedNotEmpty(components[..|components| - 1]);
    }
  }

  lemma SlashedNone()
    ensures Slashed([]) == ""
  {}

  lemma SlashedStep(components: seq<Str>, i: nat)
    requires i < |components|
    ensures Slashed(components[..i + 1]) == Slashed(components[..i]) + "/" + components[i]
  {
    assert components[..i + 1][..i] == components[..i];
  }

  method Unparse(p: Path) returns (s: Str)
    ensures s == Unparsed(p)
  {
    hide Slashed;
    s := "";
    if p.partition != "" && p.root != "" {
      s := s + p.partition + ":";
    }
    if p.root != "" {
      s := s + p.root + ":";
    }
    if p.components == [] {
      s := s + "/";
    }
    ghost var start := s;
    SlashedNone();
    assert p.components[..0] == [];
    for i := 0 to |p.components|
      invariant s == start + Slashed(p.components[..i])
    {
      SlashedStep(p.components, i);
      assert start + (Slashed(p.components[..i]) + "/" + p.components[i]) == s + "/" + p.components[i];
      s := s + "/" + p.components[i];
    }
    assert p.components[..|p.components|] == p.components;
  }

  // ---- Which paths survive being written and read ----

  /**
   Partition and root hold no colon, and there is no partition without a root; components hold no slash and are not
   empty, but the first of several may be; and they hold no colon unless both a partition and a root come before them.
   */
  predicate RoundTrips(p: Path) {
    && ':' !in p.partition && ':' !in p.root
    && (p.partition != "" ==> p.root != "")
    && (forall i :: 0 <= i < |p.components| ==> '/' !in p.components[i])
    && (forall i :: 1 <= i < |p.components| ==> p.components[i] != "")
    && p.components != [""]
    && (p.partition == "" ==> forall i :: 0 <= i < |p.components| ==> ':' !in p.components[i])
  }

  lemma FindIs(s: Str, ch: char, pos: nat, k: nat)
    requires pos <= k < |s| < NPOS && s[k] == ch && forall i :: pos <= i < k ==> s[i] != ch
    ensures Find(s, ch, pos) == k
  {}

  lemma FindNone(s: Str, ch: char, pos: nat)
    requires pos <= |s| < NPOS && forall i :: pos <= i < |s| ==> s[i] != ch
    ensures Find(s, ch, pos) == NPOS
  {}

  lemma {:induction false} SlashedFront(c: Str, rest: seq<Str>)
    ensures Slashed([c] + rest) == "/" + c + Slashed(rest)
    decreases |rest|
  {
    if rest == [] {
      assert [c] + rest == [] + [c];
      assert ([] + [c])[..0] == [];
      assert Slashed([c]) == Slashed([]) + "/" + c;
    } else {
      var n := |rest| - 1;
      SlashedFront(c, rest[..n]);
      assert ([c] + rest)[..n + 1] == [c] + rest[..n];
    }
  }

  lemma {:induction false} SlashedLacks(components: seq<Str>, ch: char)
    requires ch != '/'
    ensures ch !in Slashed(components) <==> forall i :: 0 <= i < |components| ==> ch !in components[i]
    decreases |components|
  {
    if components != [] {
      var n := |components| - 1;
      SlashedLacks(components[..n], ch);
      assert components == components[..n] + [components[n]];
    }
  }

  /** Reading components that were written behind each other. */
  lemma {:induction false} ComponentsBack(c: Str, rest: seq<Str>)
    requires '/' !in c && (rest == [] ==> c != "") && |c + Slashed(rest)| < NPOS
    requires forall i :: 0 <= i < |rest| ==> '/' !in rest[i] && rest[i] != ""
    ensures Components(c + Slashed(rest)) == [c] + rest
    decreases |rest|
  {
    var local := c + Slashed(rest);
    if rest == [] {
      FindNone(local, '/', 0);
      assert local == c && [c] + rest == [c];
    } else {
      var next, more := rest[0], rest[1..];
      SlashedFront(next, more);
      assert [next] + more == rest;
      assert local == c + "/" + (next + Slashed(more));
      FindIs(local, '/', 0, |c|);
      assert SkipSlashes(local, |c|) == |c| + 1 by { assert local[|c| + 1] == next[0]; }
      assert local[|c| + 1..] == next + Slashed(more) && local[..|c|] == c;
      ComponentsBack(next, more);
      assert [c] + ([next] + more) == [c] + rest;
    }
  }

  lemma {:induction false} SlashedEnd(components: seq<Str>)
    requires components != [] && components[|components| - 1] != "" && '/' !in components[|components| - 1]
    ensures Slashed(components) != "" && Slashed(components)[|Slashed(components)| - 1] != '/'
  {
    var last := components[|components| - 1];
    assert Slashed(components)[|Slashed(components)| - 1] == last[|last| - 1];
  }

  function Written(p: Path): Str {
    if p.components == [] then "/" else Slashed(p.components)
  }

  /** Index `k` holds the slash behind the last colon, if there is one. */
  predicate FirstSlash(path: Str, lastColon: nat, k: nat) {
    && k < |path| < NPOS - 1 && path[k] == '/'
    && if k == 0 then lastColon == NPOS else lastColon == k - 1
  }

  lemma LocalEmpty(path: Str, lastColon: nat, k: nat)
    requires FirstSlash(path, lastColon, k) && k == |path| - 1
    ensures Local(path, lastColon) == ""
  {
    assert (lastColon + 1) % WORD == k && (lastColon + 2) % WORD == k + 1;
  }

  lemma LocalTail(path: Str, lastColon: nat, k: nat)
    requires FirstSlash(path, lastColon, k) && path[|path| - 1] != '/'
    ensures Local(path, lastColon) == path[k + 1..]
  {
    assert (lastColon + 1) % WORD == k && (lastColon + 2) % WORD == k + 1;
  }

  /** With the colons found, the components come back. */
  lemma LocalBack(p: Path, pre: Str, lastColon: nat)
    requires RoundTrips(p) && |pre + Written(p)| < NPOS - 1
    requires if pre == "" then lastColon == NPOS else lastColon == |pre| - 1
    ensures |pre + Written(p)| > 0
    ensures Components(Local(pre + Written(p), lastColon)) == p.components
  {
    hide Components, Slashed, Local;
    var path := pre + Written(p);
    SlashedNotEmpty(p.components);
    assert FirstSlash(path, lastColon, |pre|);
    if p.components == [] {
      LocalEmpty(path, lastColon, |pre|);
      NoComponents();
    } else {
      LocalOfComponents(p.components, pre, lastColon);
    }
  }

  lemma LocalOfComponents(components: seq<Str>, pre: Str, lastColon: nat)
    requires components != [] && components != [""]
    requires forall i :: 0 <= i < |components| ==> '/' !in components[i]
    requires forall i :: 1 <= i < |components| ==> components[i] != ""
    requires FirstSlash(pre + Slashed(components), lastColon, |pre|)
    ensures Components(Local(pre + Slashed(components), lastColon)) == components
  {
    hide Components, Slashed, Local;
    LocalJoined(components, pre, lastColon);
    var c, rest := components[0], components[1..];
    if rest == [] { assert components == [c]; }
    ComponentsBack(c, rest);
    assert [c] + rest == components;
  }

  lemma LocalJoined(components: seq<Str>, pre: Str, lastColon: nat)
    requires components != [] && components != [""]
    requires forall i :: 0 <= i < |components| ==> '/' !in components[i]
    requires forall i :: 1 <= i < |components| ==> components[i] != ""
    requires FirstSlash(pre + Slashed(components), lastColon, |pre|)
    ensures Local(pre + Slashed(components), lastColon) == components[0] + Slashed(components[1..])
    ensures |components[0] + Slashed(components[1..])| < NPOS
  {
    hide Slashed, Local;
    var c, rest := components[0], components[1..];
    SlashedFront(c, rest);
    assert [c] + rest == components;
    if rest == [] { assert [c] + rest == [c]; }
    SlashedEnd(components);
    BehindSlash(pre, Slashed(components), c + Slashed(rest));
    LocalTail(pre + Slashed(components), lastColon, |pre|);
  }

  lemma BehindSlash(pre: Str, slashed: Str, rest: Str)
    requires slashed == "/" + rest
    ensures (pre + slashed)[|pre| + 1..] == rest
    ensures (pre + slashed)[|pre + slashed| - 1] == slashed[|slashed| - 1]
  {}

  lemma NoComponents()
    ensures Components("") == []
  {}

  lemma NoColon(a: Str)
    requires |a| < NPOS && ':' !in a
    ensures Prefixes(a) == ("", "", NPOS)
  {
    FindNone(a, ':', 0);
  }

  /** What comes before the first colon is the root, unless there is a second one. */
  lemma OneColon(a: Str, b: Str)
    requires |a + ":" + b| < NPOS && ':' !in a
    ensures if ':' in b then Prefixes(a + ":" + b).0 == a else Prefixes(a + ":" + b) == ("", a, |a|)
  {
    var path := a + ":" + b;
    FindIs(path, ':', 0, |a|);
    assert path[..|a|] == a;
    if ':' in b {
      var k :| 0 <= k < |b| && b[k] == ':';
      assert path[|a| + 1 + k] == ':';
    } else {
      FindNone(path, ':', |a| + 1);
    }
  }

  lemma TwoColons(a: Str, b: Str, c: Str)
    requires |a + ":" + b + ":" + c| < NPOS && ':' !in a && ':' !in b
    ensures Prefixes(a + ":" + b + ":" + c) == (a, b, |a| + 1 + |b|)
  {
    var path := a + ":" + b + ":" + c;
    FindIs(path, ':', 0, |a|);
    FindIs(path, ':', |a| + 1, |a| + 1 + |b|);
    assert path[..|a|] == a && path[|a| + 1..|a| + 1 + |b|] == b;
  }

  lemma PrefixesBack(p: Path)
    requires RoundTrips(p) && |Unparsed(p)| < NPOS
    ensures Prefixes(Unparsed(p)) == (p.partition, p.root, if Prefix(p) == "" then NPOS else |Prefix(p)| - 1)
  {
    hide Prefixes, Slashed;
    var path, tail := Unparsed(p), Written(p);
    SlashedLacks(p.components, ':');
    if p.root == "" {
      assert path == tail;
      NoColon(path);
    } else if p.partition == "" {
      assert path == p.root + ":" + tail;
      OneColon(p.root, tail);
    } else {
      assert path == p.partition + ":" + p.root + ":" + tail;
      TwoColons(p.partition, p.root, tail);
    }
  }

  lemma ReadsBack(p: Path)
    requires RoundTrips(p) && |Unparsed(p)| < NPOS - 1
    ensures Parsed(Unparsed(p)) == p
  {
    hide Prefixes, Components, Local, RoundTrips;
    PrefixesBack(p);
    assert Unparsed(p) == Prefix(p) + Written(p);
    LocalBack(p, Prefix(p), if Prefix(p) == "" then NPOS else |Prefix(p)| - 1);
  }

  // ---- No other path does ----

  /** What reading gives has no slashes in it, and at most the first component is empty. */
  lemma {:induction false} ComponentsShape(local: Str)
    requires |local| < NPOS
    ensures forall i :: 0 <= i < |Components(local)| ==> '/' !in Components(local)[i]
    ensures forall i :: 1 <= i < |Components(local)| ==> Components(local)[i] != ""
    ensures local != "" && local[0] != '/' ==> Components(local) != [] && Components(local)[0] != ""
    ensures |Slashed(Components(local))| <= |local| + 1
    decreases |local|
  {
    hide Slashed;
    var i := Find(local, '/', 0);
    if i == NPOS {
      SlashedNone();
      SlashedFront(local, []);
      assert [local] + [] == [local];
    } else {
      var rest := local[SkipSlashes(local, i)..];
      ComponentsShape(rest);
      SlashedFront(local[..i], Components(rest));
    }
  }

  lemma PrefixesShape(path: Str)
    requires |path| < NPOS
    ensures ':' !in Prefixes(path).0 && ':' !in Prefixes(path).1
    ensures Prefixes(path).2 == NPOS <==> ':' !in path
    ensures Prefixes(path).2 == NPOS ==> Prefixes(path).0 == "" && Prefixes(path).1 == ""
    ensures Prefixes(path).2 != NPOS ==> path[Prefixes(path).2] == ':'
  {}

  lemma LocalShort(path: Str, lastColon: nat)
    requires 0 < |path| < NPOS - 1 && lastColon < |path|
    ensures |Local(path, lastColon)| <= |path| - lastColon - 1
  {}

  /** Without a root there must be no colon at all: it would cost the components before it. */
  lemma NoRootNoColon(p: Path)
    requires p.root == "" && 0 < |Unparsed(p)| < NPOS - 1 && Parsed(Unparsed(p)) == p
    ensures ':' !in Unparsed(p) && p.partition == ""
  {
    hide Components, Slashed;
    var path := Unparsed(p);
    PrefixesShape(path);
    var colon := Prefixes(path).2;
    SlashedNotEmpty(p.components);
    assert path == Written(p);
    if colon != NPOS {
      assert path[0] == '/';
      LocalShort(path, colon);
      ComponentsShape(Local(path, colon));
    }
  }

  /** With a root alone, a colon in a component would make the root a partition. */
  lemma RootNoColon(p: Path)
    requires p.root != "" && p.partition == "" && ':' !in p.root
    requires 0 < |Unparsed(p)| < NPOS - 1 && Parsed(Unparsed(p)) == p
    ensures ':' !in Slashed(p.components)
  {
    hide Components, Slashed, Prefixes, Local;
    assert Unparsed(p) == p.root + ":" + Written(p);
    OneColon(p.root, Written(p));
    SlashedNone();
  }

  lemma OnlyThese(p: Path)
    requires |Unparsed(p)| < NPOS - 1 && Parsed(Unparsed(p)) == p
    ensures RoundTrips(p)
  {
    hide Components, Slashed, Prefixes, Local;
    var path := Unparsed(p);
    PrefixesShape(path);
    ComponentsShape(Local(path, Prefixes(path).2));
    SlashedLacks(p.components, ':');
    if p.root == "" {
      NoRootNoColon(p);
      NothingInWritten(p);
    } else if p.partition == "" {
      RootNoColon(p);
    }
    NotOneEmpty(p);
  }

  lemma NothingInWritten(p: Path)
    requires p.root == "" && ':' !in Unparsed(p)
    ensures ':' !in Slashed(p.components)
  {}

  /** A single empty component is written like none. */
  lemma NotOneEmpty(p: Path)
    requires |Unparsed(p)| < NPOS - 1 && Parsed(Unparsed(p)) == p
    requires ':' !in p.partition && ':' !in p.root && (p.partition != "" ==> p.root != "")
    ensures p.components != [""]
  {
    hide Prefixes, Components, Local, Slashed;
    if p.components == [""] {
      var none := p.(components := []);
      SlashedFront("", []);
      assert [""] + [] == [""];
      SlashedNone();
      assert Unparsed(none) == Unparsed(p);
      ReadsBack(none);
    }
  }

  /** Writing a path and reading it gives it back for exactly these paths. */
  lemma RoundTrip(p: Path)
    requires |Unparsed(p)| < NPOS - 1
    ensures Parsed(Unparsed(p)) == p <==> RoundTrips(p)
  {
    if RoundTrips(p) {
      ReadsBack(p);
    } else if Parsed(Unparsed(p)) == p {
      OnlyThese(p);
    }
  }
}
