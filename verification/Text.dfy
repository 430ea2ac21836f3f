/** Strings as the file system handles them: terminated by a NUL character, which they do not contain. */
module Text {

  const NPOS: nat := 0xffff_ffff_ffff_ffff
  const WORD: nat := 0x1_0000_0000_0000_0000

  type Str = s: string | '\0' !in s

  /** The character at an index, the terminator included. */
  function At(s: Str, i: nat): char {
    if i < |s| then s[i] else '\0'
  }

  /** The first `ch` from `pos` on. */
  function Find(s: Str, ch: char, pos: nat): (r: nat)
    requires pos <= |s| < NPOS
    ensures r == NPOS || (pos <= r < |s| && s[r] == ch)
    ensures forall i :: pos <= i < |s| && (r == NPOS || i < r) ==> s[i] != ch
    decreases |s| - pos
  {
    if pos == |s| then NPOS else if s[pos] == ch then pos else Find(s, ch, pos + 1)
  }

  function Substr(s: Str, pos: nat, count: nat): (r: Str)
    requires pos <= |s|
  {
    var remaining := |s| - pos;
    var actual := if count == NPOS then remaining else count;
    var size := if actual < remaining then actual else remaining;
    s[pos..pos + size]
  }

  /** Pieces put together again, with a separator between them. */
  function Rejoined(pieces: seq<Str>, sep: char): string {
    if pieces == [] then ""
    else if |pieces| == 1 then pieces[0]
    else Rejoined(pieces[..|pieces| - 1], sep) + [sep] + pieces[|pieces| - 1]
  }

  lemma RejoinedStep(pieces: seq<Str>, piece: Str, sep: char)
    ensures Rejoined(pieces + [piece], sep) == if pieces == [] then piece else Rejoined(pieces, sep) + [sep] + piece
  {
    assert (pieces + [piece])[..|pieces|] == pieces;
  }

  method Split(s: Str, sep: char) returns (portions: seq<Str>)
    requires |s| < NPOS && sep != '\0'
    ensures forall i :: 0 <= i < |portions| ==> sep !in portions[i]
    ensures portions != [] && Rejoined(portions, sep) == s
  {
    portions := [];
    var start := 0;
    while true
      invariant start <= |s|
      invariant forall i :: 0 <= i < |portions| ==> sep !in portions[i]
      invariant if portions == [] then start == 0 else Rejoined(portions, sep) + [sep] == s[..start]
      decreases |s| - start
    {
      var at := Find(s, sep, start);
      if at == NPOS {
        RejoinedStep(portions, Substr(s, start, NPOS), sep);
        assert s == s[..start] + s[start..];
        portions := portions + [Substr(s, start, NPOS)];
        break;
      }
      RejoinedStep(portions, Substr(s, start, at - start), sep);
      assert s[..at + 1] == s[..start] + s[start..at] + [sep];
      portions := portions + [Substr(s, start, at - start)];
      start := at + 1;
    }
  }

  /** There is only one way to cut a string at all its separators. */
  lemma {:induction false} SplitUnique(a: seq<Str>, b: seq<Str>, sep: char)
    requires a != [] && b != [] && Rejoined(a, sep) == Rejoined(b, sep)
    requires forall i :: 0 <= i < |a| ==> sep !in a[i]
    requires forall i :: 0 <= i < |b| ==> sep !in b[i]
    ensures a == b
    decreases |a|
  {
    if |a| == 1 && |b| == 1 {
      assert a == [a[0]] && b == [b[0]];
    } else if |a| == 1 {
      Behind(Rejoined(b[..|b| - 1], sep), b[|b| - 1], sep);
    } else if |b| == 1 {
      Behind(Rejoined(a[..|a| - 1], sep), a[|a| - 1], sep);
    } else {
      LastSeparator(Rejoined(a[..|a| - 1], sep), a[|a| - 1], Rejoined(b[..|b| - 1], sep), b[|b| - 1], sep);
      SplitUnique(a[..|a| - 1], b[..|b| - 1], sep);
      assert a == a[..|a| - 1] + [a[|a| - 1]] && b == b[..|b| - 1] + [b[|b| - 1]];
    }
  }

  lemma Behind(pre: string, last: string, sep: char)
    ensures sep in pre + [sep] + last
  {
    assert (pre + [sep] + last)[|pre|] == sep;
  }

  lemma LastSeparator(p: string, x: string, q: string, y: string, sep: char)
    requires p + [sep] + x == q + [sep] + y && sep !in x && sep !in y
    ensures p == q && x == y
  {
    Separators(p, x, sep);
    Separators(q, y, sep);
    if |p| == |q| {
      var s := p + [sep] + x;
      assert p == s[..|p|] && q == s[..|p|] && x == s[|p| + 1..] && y == s[|p| + 1..];
    }
  }

  lemma Separators(pre: string, last: string, sep: char)
    requires sep !in last
    ensures (pre + [sep] + last)[|pre|] == sep
    ensures forall k :: |pre| < k < |pre + [sep] + last| ==> (pre + [sep] + last)[k] != sep
  {}
}
