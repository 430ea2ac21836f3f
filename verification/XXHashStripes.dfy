/** Folding an input in stripes of a fixed width, and doing so when the input arrives in pieces. */
module XXHashStripes {

  import X = Multiples

  type byte = bv8

  /** `step` takes in a stripe. */
  ghost predicate Steps<V(!new)>(step: (V, seq<byte>) --> V, width: nat) {
    width > 0 && forall v: V, s: seq<byte> :: |s| == width ==> step.requires(v, s)
  }

  /** The lanes after all full stripes of `data`; a rest is left out. */
  ghost function Fold<V(!new)>(step: (V, seq<byte>) --> V, width: nat, v: V, data: seq<byte>): V
    requires Steps(step, width)
    decreases |data|
  {
    if |data| < width then v else Fold(step, width, step(v, data[..width]), data[width..])
  }

  /** One more stripe, behind full ones. */
  lemma {:induction false} FoldStripe<V(!new)>(step: (V, seq<byte>) --> V, width: nat, v: V, a: seq<byte>, s: seq<byte>)
    requires Steps(step, width) && |a| % width == 0 && |s| == width
    ensures Fold(step, width, v, a + s) == step(Fold(step, width, v, a), s)
    decreases |a|
  {
    if a == [] {
      assert a + s == s && s[..width] == s && s[width..] == [];
    } else {
      X.Positive(|a|, width);
      X.OneBefore(|a|, width);
      assert (a + s)[..width] == a[..width] && (a + s)[width..] == a[width..] + s;
      FoldStripe(step, width, step(v, a[..width]), a[width..], s);
    }
  }

  /** A rest behind full stripes changes nothing. */
  lemma {:induction false} FoldRest<V(!new)>(step: (V, seq<byte>) --> V, width: nat, v: V, a: seq<byte>,
          rest: seq<byte>)
    requires Steps(step, width) && |a| % width == 0 && |rest| < width
    ensures Fold(step, width, v, a + rest) == Fold(step, width, v, a)
    decreases |a|
  {
    if a == [] {
      assert a + rest == rest;
    } else {
      X.Positive(|a|, width);
      X.OneBefore(|a|, width);
      assert (a + rest)[..width] == a[..width] && (a + rest)[width..] == a[width..] + rest;
      FoldRest(step, width, step(v, a[..width]), a[width..], rest);
    }
  }

  /** The bytes of `all` behind its last full stripe. */
  function Rest(all: seq<byte>, width: nat): (r: seq<byte>)
    requires width > 0
    ensures |r| == |all| % width < width
  {
    all[X.Multiple(|all|, width)..]
  }

  /** A state that has taken in `all`: its lanes, and the bytes waiting in its buffer. */
  ghost predicate Took<V(!new)>(step: (V, seq<byte>) --> V, width: nat, init: V, all: seq<byte>, v: V,
          waiting: seq<byte>)
    requires Steps(step, width)
  {
    v == Fold(step, width, init, all) && waiting == Rest(all, width)
  }

  /** `a` is full stripes, `rest` less than one. */
  lemma TookRest<V(!new)>(step: (V, seq<byte>) --> V, width: nat, init: V, a: seq<byte>, rest: seq<byte>)
    requires Steps(step, width) && |a| % width == 0 && |rest| < width
    ensures Took(step, width, init, a + rest, Fold(step, width, init, a), rest)
  {
    FoldRest(step, width, init, a, rest);
    X.RestIs(|a|, |rest|, width);
    assert (a + rest)[|a|..] == rest;
  }

  /** What a state has taken in ends with what waits in its buffer. */
  lemma TookParts<V(!new)>(step: (V, seq<byte>) --> V, width: nat, init: V, all: seq<byte>, v: V, waiting: seq<byte>)
    requires Steps(step, width) && Took(step, width, init, all, v, waiting)
    ensures var n := X.Multiple(|all|, width);
            all == all[..n] + waiting && n % width == 0 && v == Fold(step, width, init, all[..n]) && |waiting| < width
  {
    var n := X.Multiple(|all|, width);
    assert all == all[..n] + all[n..];
    X.IsMultiple(|all| / width, width);
    assert n == |all| / width * width;
    FoldRest(step, width, init, all[..n], all[n..]);
  }

  /** The new bytes do not fill the buffer. */
  lemma TookLittle<V(!new)>(step: (V, seq<byte>) --> V, width: nat, init: V, all: seq<byte>, v: V, waiting: seq<byte>,
                            input: seq<byte>)
    requires Steps(step, width) && Took(step, width, init, all, v, waiting) && |waiting| + |input| < width
    ensures Took(step, width, init, all + input, v, waiting + input)
  {
    TookParts(step, width, init, all, v, waiting);
    var a := all[..X.Multiple(|all|, width)];
    TookRest(step, width, init, a, waiting + input);
    assert a + (waiting + input) == all + input;
  }

  /** The new bytes fill the buffer, which is then taken in. */
  lemma TookBuffer<V(!new)>(step: (V, seq<byte>) --> V, width: nat, init: V, all: seq<byte>, v: V, waiting: seq<byte>,
                            input: seq<byte>)
    requires Steps(step, width) && Took(step, width, init, all, v, waiting) && |waiting| + |input| == width
    ensures Took(step, width, init, all + input, step(v, waiting + input), [])
  {
    hide Fold, X.Multiple;
    TookParts(step, width, init, all, v, waiting);
    var a := all[..X.Multiple(|all|, width)];
    var s := waiting + input;
    FoldStripe(step, width, init, a, s);
    X.Itself(width);
    X.Sum(|a|, width, width);
    assert a + s == all + input && all + input + [] == all + input;
    TookRest(step, width, init, all + input, []);
  }

  /** A stripe straight from the input, the buffer being empty. */
  lemma TookStripe<V(!new)>(step: (V, seq<byte>) --> V, width: nat, init: V, all: seq<byte>, v: V, s: seq<byte>)
    requires Steps(step, width) && Took(step, width, init, all, v, []) && |s| == width
    ensures Took(step, width, init, all + s, step(v, s), [])
  {
    assert [] + s == s;
    TookBuffer(step, width, init, all, v, [], s);
  }

  lemma TookNothing<V(!new)>(step: (V, seq<byte>) --> V, width: nat, init: V)
    requires Steps(step, width)
    ensures Took(step, width, init, [], init, [])
  {}

  lemma TookMeans<V(!new)>(step: (V, seq<byte>) --> V, width: nat, init: V, all: seq<byte>, v: V, waiting: seq<byte>)
    requires Steps(step, width) && Took(step, width, init, all, v, waiting)
    ensures v == Fold(step, width, init, all) && waiting == Rest(all, width)
    ensures |all| < width ==> v == init
  {}

  /** As many full stripes as there are were taken in. */
  lemma TookAll<V(!new)>(step: (V, seq<byte>) --> V, width: nat, init: V, data: seq<byte>, p: nat, v: V)
    requires Steps(step, width) && p <= |data| < p + width && Took(step, width, init, data[..p], v, [])
    ensures v == Fold(step, width, init, data) && data[p..] == Rest(data, width)
  {
    TookLittle(step, width, init, data[..p], v, [], data[p..]);
    assert data[..p] + data[p..] == data && [] + data[p..] == data[p..];
  }
}
