/** Consumers that are handed entries one by one, may ask for one again, and may end the whole walk. */
module BmTreeConsumers {
  import opened BmTreeModel
  import opened BmTreeSubtree

  datatype Answer = Go | Again | Stop | Fail

  /** What a consumer answers may depend on all that it was handed before. */
  type Consumer = (seq<Entry>, Entry) -> Answer

  datatype End = Done | Stopped | Failed

  function Times(e: Entry, n: nat): (r: seq<Entry>)
    ensures |r| == n && forall i :: 0 <= i < n ==> r[i] == e
  {
    seq(n, _ => e)
  }

  /** Handed `e` often enough, it will not ask for it again. */
  ghost predicate Settles(f: Consumer, h: seq<Entry>, e: Entry) {
    exists n: nat :: f(h + Times(e, n), e) != Again
  }

  /** It never asks for an entry for ever. */
  ghost predicate Patient(f: Consumer) {
    forall h: seq<Entry>, e: Entry :: Settles(f, h, e)
  }

  /** It asks for `e` exactly `n` times again, and then gives another answer. */
  ghost predicate Asks(f: Consumer, h: seq<Entry>, e: Entry, n: nat) {
    && f(h + Times(e, n), e) != Again
    && forall i :: 0 <= i < n ==> f(h + Times(e, i), e) == Again
  }

  /**
   A consumer that was handed `h` before and then, in turn, `calls`, has been through the entries `s` up to the end
   `end`: each is handed over until it is not asked for again.
   */
  ghost predicate Consumed(f: Consumer, s: seq<Entry>, h: seq<Entry>, calls: seq<Entry>, end: End)
    decreases |calls|
  {
    if s == [] then calls == [] && end == Done
    else
      && calls != [] && calls[0] == s[0]
      && match f(h, s[0])
         case Again => Consumed(f, s, h + [s[0]], calls[1..], end)
         case Go => Consumed(f, s[1..], h + [s[0]], calls[1..], end)
         case Stop => calls == [s[0]] && end == Stopped
         case Fail => calls == [s[0]] && end == Failed
  }

  /** What `f` was handed and did not ask for again. */
  ghost function Settled(f: Consumer, h: seq<Entry>, calls: seq<Entry>): seq<Entry>
    decreases |calls|
  {
    if calls == [] then []
    else (if f(h, calls[0]) == Again then [] else [calls[0]]) + Settled(f, h + [calls[0]], calls[1..])
  }

  /** No entry is passed over or handed over anew: those settled are the first ones, and all of them at the end. */
  lemma {:induction false} SettledInTurn(f: Consumer, s: seq<Entry>, h: seq<Entry>, calls: seq<Entry>, end: End)
    requires Consumed(f, s, h, calls, end)
    ensures Settled(f, h, calls) <= s && (end == Done ==> Settled(f, h, calls) == s)
    ensures end != Done ==> calls != [] && var n := |calls| - 1;
              f(h + calls[..n], calls[n]) == if end == Stopped then Stop else Fail
    decreases |calls|
  {
    if s != [] {
      var e, n := s[0], |calls| - 1;
      if f(h, e) == Again || f(h, e) == Go {
        var rest := if f(h, e) == Again then s else s[1..];
        SettledInTurn(f, rest, h + [e], calls[1..], end);
        if end != Done {
          assert (h + [e]) + calls[1..][..n - 1] == h + calls[..n];
        }
        assert s == [e] + s[1..];
      } else {
        assert calls[1..] == [] && h + calls[..0] == h;
        assert Settled(f, h + [e], calls[1..]) == [];
      }
    } else {
      assert Settled(f, h, calls) == [];
    }
  }

  /** A consumer that always goes on gets every entry once. */
  lemma {:induction false} HandedAll(f: Consumer, s: seq<Entry>, h: seq<Entry>, calls: seq<Entry>, end: End)
    requires Consumed(f, s, h, calls, end) && forall h: seq<Entry>, e: Entry :: f(h, e) == Go
    ensures calls == s && end == Done
    decreases |calls|
  {
    if s != [] {
      assert f(h, s[0]) == Go;
      HandedAll(f, s[1..], h + [s[0]], calls[1..], end);
    }
  }

  /** One entry, asked for again up to the last call. */
  lemma {:induction false} ConsumedOne(f: Consumer, e: Entry, h: seq<Entry>, n: nat)
    requires Asks(f, h, e, n)
    ensures Consumed(f, [e], h, Times(e, n + 1), EndOf(f(h + Times(e, n), e)))
    decreases n
  {
    var calls := Times(e, n + 1);
    assert calls[1..] == Times(e, n);
    assert h + Times(e, 0) == h;
    if n > 0 {
      assert (h + [e]) + Times(e, n - 1) == h + Times(e, n);
      forall i | 0 <= i < n - 1 ensures f((h + [e]) + Times(e, i), e) == Again {
        assert (h + [e]) + Times(e, i) == h + Times(e, i + 1);
      }
      ConsumedOne(f, e, h + [e], n - 1);
    } else {
      assert calls == [e] && [e][1..] == [];
    }
  }

  lemma LenientAsks(f: Consumer, e: Entry, h: seq<Entry>, n: nat)
    requires Asks(f, h, e, n)
    ensures Asks(Lenient(f), h, e, n)
    ensures EndOf(Lenient(f)(h + Times(e, n), e)) == if f(h + Times(e, n), e) == Stop then Stopped else Done
  {}

  function EndOf(answer: Answer): End {
    match answer
    case Stop => Stopped
    case Fail => Failed
    case _ => Done
  }

  lemma {:induction false} ConsumedBoth(f: Consumer, a: seq<Entry>, b: seq<Entry>, h: seq<Entry>,
          c1: seq<Entry>, c2: seq<Entry>, end: End)
    requires Consumed(f, a, h, c1, Done) && Consumed(f, b, h + c1, c2, end)
    ensures Consumed(f, a + b, h, c1 + c2, end)
    decreases |c1|
  {
    if a == [] {
      assert a + b == b && c1 + c2 == c2 && h + c1 == h;
    } else {
      var e := a[0];
      assert (h + [e]) + c1[1..] == h + c1 && (c1 + c2)[1..] == c1[1..] + c2;
      if f(h, e) == Again {
        ConsumedBoth(f, a, b, h + [e], c1[1..], c2, end);
      } else {
        assert (a + b)[1..] == a[1..] + b;
        ConsumedBoth(f, a[1..], b, h + [e], c1[1..], c2, end);
      }
    }
  }

  /** Whatever comes after the entry at which a consumer ends the walk is not handed over. */
  lemma {:induction false} ConsumedPart(f: Consumer, a: seq<Entry>, b: seq<Entry>, h: seq<Entry>, calls: seq<Entry>,
          end: End)
    requires Consumed(f, a, h, calls, end) && end != Done
    ensures Consumed(f, a + b, h, calls, end)
    decreases |calls|
  {
    var e := a[0];
    if f(h, e) == Again {
      ConsumedPart(f, a, b, h + [e], calls[1..], end);
    } else if f(h, e) == Go {
      assert (a + b)[1..] == a[1..] + b;
      ConsumedPart(f, a[1..], b, h + [e], calls[1..], end);
    }
  }

  // ---- Backwards through the leaves ----

  lemma ReverseNone<T>()
    ensures Reverse<T>([]) == []
  {}

  lemma ConsumedNone(f: Consumer, h: seq<Entry>)
    ensures Consumed(f, [], h, [], Done)
  {}

  /** The entry before those of a leaf that were handed over. */
  lemma WalkOne(f: Consumer, es: seq<Entry>, i: nat, h: seq<Entry>, calls: seq<Entry>, more: seq<Entry>, end: End)
    requires i < |es| && Consumed(f, Reverse(es[i + 1..]), h, calls, Done)
    requires Consumed(f, [es[i]], h + calls, more, end)
    ensures Consumed(f, Reverse(es[i..]), h, calls + more, end)
    ensures end != Done ==> Consumed(f, Reverse(es), h, calls + more, end)
  {
    hide Consumed, Reverse;
    var a, b := Reverse(es[i + 1..]), [es[i]];
    ConsumedBoth(f, a, b, h, calls, more, end);
    assert es[i..] == b + es[i + 1..] && es == es[..i] + es[i..];
    ReverseConcat(b, es[i + 1..]);
    ReverseConcat(es[..i], es[i..]);
    assert Reverse(b) == b;
    if end != Done {
      ConsumedPart(f, a + b, Reverse(es[..i]), h, calls + more, end);
    }
  }

  /** The leaf with entries `es` comes after everything in `rest` was handed over. */
  lemma WalkStep(f: Consumer, before: seq<Entry>, es: seq<Entry>, rest: seq<Entry>, calls: seq<Entry>,
          part: seq<Entry>, end: End)
    requires Consumed(f, Reverse(rest), [], calls, Done) && Consumed(f, Reverse(es), calls, part, end)
    ensures Consumed(f, Reverse(es + rest), [], calls + part, end)
    ensures end != Done ==> Consumed(f, Reverse(before + (es + rest)), [], calls + part, end)
  {
    hide Consumed, Reverse;
    assert [] + calls == calls;
    ConsumedBoth(f, Reverse(rest), Reverse(es), [], calls, part, end);
    ReverseConcat(es, rest);
    ReverseConcat(before, es + rest);
    if end != Done {
      ConsumedPart(f, Reverse(es + rest), Reverse(before), [], calls + part, end);
    }
  }

  /** The same consumer for a caller that takes no notice of errors. */
  function Lenient(f: Consumer): Consumer {
    (h: seq<Entry>, e: Entry) => if f(h, e) == Fail then Go else f(h, e)
  }

  /** Hands an entry to a consumer until it is not asked for again. */
  /** The consumer stopped at an entry of the leaf whose block was the last one to be freed. */
  ghost predicate StoppedIn(t: Tree, freed: seq<Address>, calls: seq<Entry>, end: End) {
    && end == Stopped && freed != [] && calls != [] && t.levels != []
    && LastOf(freed) in t.levels[0] && calls[|calls| - 1] in Ents(t.disk, LastOf(freed))
  }

  lemma StoppedHere(t: Tree, p: nat, calls: seq<Entry>)
    requires t.levels != [] && p < |t.levels[0]| && calls != []
    requires calls[|calls| - 1] in Ents(t.disk, t.levels[0][p])
    ensures StoppedIn(t, [t.levels[0][p]], calls, Stopped)
  {}

  /** It had been handed entries before, and other blocks had been freed. */
  lemma StoppedLater(t: Tree, freed: seq<Address>, more: seq<Address>, calls: seq<Entry>, last: seq<Entry>, end: End)
    requires StoppedIn(t, more, last, end)
    ensures StoppedIn(t, freed + more, calls + last, end)
  {}

  lemma PrefixOn(a: seq<Address>, b: seq<Address>, b': seq<Address>, c: seq<Address>)
    requires b <= b' && a + b' <= c
    ensures a + b <= c
  {}

  method HandOver(f: Consumer, h: seq<Entry>, e: Entry) returns (calls: seq<Entry>, answer: Answer)
    requires Patient(f)
    ensures answer != Again && Consumed(f, [e], h, calls, EndOf(answer)) && calls != [] && calls[|calls| - 1] == e
    ensures Consumed(Lenient(f), [e], h, calls, if answer == Stop then Stopped else Done)
  {
    hide Consumed, Lenient, Asks;
    assert Settles(f, h, e);
    ghost var most: nat :| f(h + Times(e, most), e) != Again;
    ghost var n: nat := 0;
    calls := [e];
    AsksNot(f, h, e);
    answer := f(h, e);
    while answer == Again
      invariant n <= most && calls == Times(e, n + 1) && answer == f(h + Times(e, n), e)
      invariant answer != Again ==> Asks(f, h, e, n)
      invariant answer == Again ==> forall i :: 0 <= i <= n ==> f(h + Times(e, i), e) == Again
      decreases most - n
    {
      answer := f(h + calls, e);
      calls := calls + [e];
      n := n + 1;
      AsksMore(f, h, e, n);
    }
    ConsumedOne(f, e, h, n);
    LenientAsks(f, e, h, n);
    ConsumedOne(Lenient(f), e, h, n);
  }

  lemma AsksNot(f: Consumer, h: seq<Entry>, e: Entry)
    ensures h + Times(e, 0) == h && (f(h, e) != Again ==> Asks(f, h, e, 0))
  {
    assert h + Times(e, 0) == h;
  }

  lemma AsksMore(f: Consumer, h: seq<Entry>, e: Entry, n: nat)
    requires n > 0 && forall i :: 0 <= i < n ==> f(h + Times(e, i), e) == Again
    ensures Times(e, n + 1) == Times(e, n) + [e]
    ensures f(h + Times(e, n), e) != Again ==> Asks(f, h, e, n)
  {}
}
