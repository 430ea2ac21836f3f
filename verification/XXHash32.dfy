/** XXH32: the hash of a whole input, and the state that takes the input in pieces. */
module XXHash32 {
  import opened Pieces
  import opened XXHashStripes

  const PRIME_1: bv32 := 2654435761
  const PRIME_2: bv32 := 2246822519
  const PRIME_3: bv32 := 3266489917
  const PRIME_4: bv32 := 668265263
  const PRIME_5: bv32 := 374761393

  const WORD := 0x1_0000_0000
  const STRIPE := 16

  datatype Lanes = Lanes(v1: bv32, v2: bv32, v3: bv32, v4: bv32)

  function Rotl(x: bv32, r: bv6): bv32
    requires r <= 32
  {
    (x << r) | (x >> (32 - r))
  }

  function Times(x: bv32, k: bv32): bv32 {
    x * k
  }

  /** A count as it is kept in a word. */
  function Wrapped(n: nat): nat {
    n % WORD
  }

  lemma WrappedSum(n: nat, m: nat)
    ensures Wrapped(Wrapped(n) + m) == Wrapped(n + m)
  {}

  /** The wrapped count is as good as the true one as long as no full stripe was reached. */
  lemma LargeStays(n: nat, m: nat)
    ensures n < STRIPE && m < STRIPE ==> Wrapped(n + m) == n + m
  {}

  function Word(n: nat): bv32 {
    (n % WORD) as bv32
  }

  /** Four bytes, the lowest one first. */
  function Read32(s: seq<byte>): bv32
    requires |s| == 4
  {
    Quad(s[0], s[1], s[2], s[3])
  }

  function Quad(a: byte, b: byte, c: byte, d: byte): bv32 {
    (a as bv32) | ((b as bv32) << 8) | ((c as bv32) << 16) | ((d as bv32) << 24)
  }

  function Round(acc: bv32, input: bv32): bv32 {
    Times(Rotl(acc + Times(input, PRIME_2), 13), PRIME_1)
  }

  function Init(seed: bv32): Lanes {
    Lanes(seed + PRIME_1 + PRIME_2, seed + PRIME_2, seed + 0, seed - PRIME_1)
  }

  function Step(v: Lanes, s: seq<byte>): Lanes
    requires |s| == STRIPE
  {
    Lanes(Round(v.v1, Read32(s[..4])), Round(v.v2, Read32(s[4..8])),
          Round(v.v3, Read32(s[8..12])), Round(v.v4, Read32(s[12..])))
  }

  function Sum(a: bv32, b: bv32, c: bv32, d: bv32): bv32 {
    a + b + c + d
  }

  /** The four lanes made into one. */
  function Converge(v: Lanes): bv32 {
    Sum(Rotl(v.v1, 1), Rotl(v.v2, 7), Rotl(v.v3, 12), Rotl(v.v4, 18))
  }

  function Take4(h: bv32, w: bv32): bv32 {
    Times(Rotl(h + Times(w, PRIME_3), 17), PRIME_4)
  }

  function Mix4(h: bv32, s: seq<byte>): bv32
    requires |s| == 4
  {
    Take4(h, Read32(s))
  }

  function Take1(h: bv32, w: bv32): bv32 {
    Times(Rotl(h + Times(w, PRIME_5), 11), PRIME_1)
  }

  function Mix1(h: bv32, b: byte): bv32 {
    Take1(h, b as bv32)
  }

  /** The rest of the input, less than a stripe: words first, then bytes. */
  function Tail(h: bv32, t: seq<byte>): bv32
    decreases |t|
  {
    if |t| >= 4 then Tail(Mix4(h, t[..4]), t[4..])
    else if |t| >= 1 then Tail(Mix1(h, t[0]), t[1..])
    else h
  }

  function Avalanche(h: bv32): bv32 {
    var a := Times(h ^ (h >> 15), PRIME_2);
    var b := Times(a ^ (a >> 13), PRIME_3);
    b ^ (b >> 16)
  }

  /** Where the hash of an input without a full stripe starts. */
  function Start(seed: bv32): bv32 {
    seed + PRIME_5
  }

  function AddLength(h: bv32, length: bv32): bv32 {
    h + length
  }

  /** Only the low word of the length goes into the hash. */
  lemma WordWraps(n: nat, low: nat)
    requires low == n % WORD
    ensures Word(low) == Word(n)
  {
    assert low % WORD == low;
  }

  /** The third lane still is the seed then. */
  lemma StartFromLane(seed: bv32)
    ensures Start(Init(seed).v3) == Start(seed)
  {}

  /** The hash of an input, in the steps of the algorithm's description. */
  ghost function Hash(data: seq<byte>, seed: bv32): bv32 {
    var h := if |data| >= STRIPE then Converge(Fold(Step, STRIPE, Init(seed), data)) else Start(seed);
    Avalanche(Tail(AddLength(h, Word(|data|)), Rest(data, STRIPE)))
  }

  method Finalize(start: bv32, t: seq<byte>) returns (h: bv32)
    ensures h == Avalanche(Tail(start, t))
  {
    hide Mix4, Mix1, Avalanche;
    h := start;
    var p := 0;
    while p + 4 <= |t|
      invariant p <= |t| && Tail(h, t[p..]) == Tail(start, t)
    {
      assert t[p..][..4] == t[p..p + 4] && t[p..][4..] == t[p + 4..];
      h := Mix4(h, t[p..p + 4]);
      p := p + 4;
    }
    while p < |t|
      invariant |t| - 4 < p <= |t| && Tail(h, t[p..]) == Tail(start, t)
    {
      assert t[p..][1..] == t[p + 1..];
      h := Mix1(h, t[p]);
      p := p + 1;
    }
    h := Avalanche(h);
  }

  method XXH32(data: seq<byte>, seed: bv32) returns (h: bv32)
    ensures h == Hash(data, seed)
  {
    hide Step, Init, Converge, Avalanche, Tail, Fold, Start, AddLength, Word, Rest, Took;
    var p := 0;
    assert data[..0] == [];
    TookNothing(Step, STRIPE, Init(seed));
    if |data| >= STRIPE {
      var limit := |data| - STRIPE;
      var v := Init(seed);
      while p <= limit
        invariant p <= |data| && Took(Step, STRIPE, Init(seed), data[..p], v, [])
      {
        TookStripe(Step, STRIPE, Init(seed), data[..p], v, data[p..p + STRIPE]);
        assert data[..p] + data[p..p + STRIPE] == data[..p + STRIPE];
        v := Step(v, data[p..p + STRIPE]);
        p := p + STRIPE;
      }
      TookAll(Step, STRIPE, Init(seed), data, p, v);
      h := Converge(v);
    } else {
      TookAll(Step, STRIPE, Init(seed), data, p, Init(seed));
      h := Start(seed);
    }
    h := Finalize(AddLength(h, Word(|data|)), data[p..]);
  }

  /** The state of a hash whose input arrives in pieces. */
  class State {
    /** The length of the input, modulo 2^32. */
    var totalLen32: nat
    /** Whether a full stripe was ever reached. */
    var largeLen: bool
    var lanes: Lanes
    const mem: array<byte>
    var memSize: nat

    /** Everything the state was given since it was reset with `seed` is `all`. */
    ghost predicate Holds(all: seq<byte>, seed: bv32)
      reads this, mem
    {
      && mem.Length == STRIPE && memSize < STRIPE
      && totalLen32 == Wrapped(|all|)
      && (largeLen <==> |all| >= STRIPE)
      && Took(Step, STRIPE, Init(seed), all, lanes, mem[..memSize])
    }

    constructor ()
      ensures mem.Length == STRIPE && fresh(mem)
    {
      totalLen32, largeLen, lanes, memSize := 0, false, Lanes(0, 0, 0, 0), 0;
      mem := new byte[STRIPE](_ => 0);
    }

    method Reset(seed: bv32)
      requires mem.Length == STRIPE
      modifies this, mem
      ensures Holds([], seed)
    {
      hide Init, Step, Fold, Took;
      for i := 0 to STRIPE {
        mem[i] := 0;
      }
      totalLen32, largeLen, memSize := 0, false, 0;
      lanes := Init(seed);
      TookNothing(Step, STRIPE, lanes);
      assert mem[..0] == [];
    }

    /** Copies `input` into the buffer, behind what waits there. */
    method Store(input: seq<byte>)
      requires mem.Length == STRIPE && memSize + |input| <= STRIPE
      modifies mem
      ensures mem[..memSize + |input|] == old(mem[..memSize]) + input
    {
      for i := 0 to |input|
        invariant mem[..memSize] == old(mem[..memSize])
        invariant forall k :: 0 <= k < i ==> mem[memSize + k] == input[k]
      {
        mem[memSize + i] := input[i];
      }
    }

    method Update(input: seq<byte>, ghost all: seq<byte>, ghost seed: bv32)
      requires Holds(all, seed)
      modifies this, mem
      ensures Holds(all + input, seed)
    {
      hide Init, Step, Fold, Rest, Took, Wrapped;
      WrappedSum(|all|, |input|);
      LargeStays(|all|, |input|);
      totalLen32 := Wrapped(totalLen32 + |input|);
      largeLen := largeLen || |input| >= STRIPE || totalLen32 >= STRIPE;
      if memSize + |input| < STRIPE {
        TookLittle(Step, STRIPE, Init(seed), all, lanes, mem[..memSize], input);
        Store(input);
        memSize := memSize + |input|;
        return;
      }
      var p := FillBuffer(input, all, seed);
      p := TakeStripes(input, p, all, seed);
      TookLittle(Step, STRIPE, Init(seed), all + input[..p], lanes, [], input[p..]);
      assert all + input[..p] + input[p..] == all + input && [] + input[p..] == input[p..];
      assert mem[..0] == [];
      Store(input[p..]);
      memSize := |input| - p;
    }

    /** A buffer that holds something is filled up and taken in. */
    method FillBuffer(input: seq<byte>, ghost all: seq<byte>, ghost seed: bv32) returns (p: nat)
      requires mem.Length == STRIPE && memSize < STRIPE <= memSize + |input|
      requires Took(Step, STRIPE, Init(seed), all, lanes, mem[..memSize])
      modifies this, mem
      ensures p <= |input| && memSize == 0 && totalLen32 == old(totalLen32) && largeLen == old(largeLen)
      ensures Took(Step, STRIPE, Init(seed), all + input[..p], lanes, [])
    {
      hide Init, Step, Fold, Rest, Took;
      p := 0;
      assert all + input[..0] == all && mem[..0] == [];
      if memSize > 0 {
        p := STRIPE - memSize;
        TookBuffer(Step, STRIPE, Init(seed), all, lanes, mem[..memSize], input[..p]);
        Store(input[..p]);
        lanes := Step(lanes, mem[..STRIPE]);
        memSize := 0;
      }
    }

    /** Full stripes straight from the input. */
    method TakeStripes(input: seq<byte>, start: nat, ghost all: seq<byte>, ghost seed: bv32) returns (p: nat)
      requires start <= |input| && Took(Step, STRIPE, Init(seed), all + input[..start], lanes, [])
      modifies this`lanes
      ensures start <= p <= |input| < p + STRIPE
      ensures Took(Step, STRIPE, Init(seed), all + input[..p], lanes, [])
    {
      hide Init, Step, Fold, Rest, Took;
      p := start;
      while p + STRIPE <= |input|
        invariant start <= p <= |input| && Took(Step, STRIPE, Init(seed), all + input[..p], lanes, [])
      {
        TookStripe(Step, STRIPE, Init(seed), all + input[..p], lanes, input[p..p + STRIPE]);
        assert all + input[..p] + input[p..p + STRIPE] == all + input[..p + STRIPE];
        lanes := Step(lanes, input[p..p + STRIPE]);
        p := p + STRIPE;
      }
    }

    method Digest(ghost all: seq<byte>, ghost seed: bv32) returns (h: bv32)
      requires Holds(all, seed)
      ensures h == Hash(all, seed)
    {
      hide Step, Fold, Init, Converge, Tail, Avalanche, Took, Rest, Start, AddLength, Word;
      TookMeans(Step, STRIPE, Init(seed), all, lanes, mem[..memSize]);
      if largeLen {
        h := Converge(lanes);
      } else {
        StartFromLane(seed);
        h := Start(lanes.v3);
      }
      WordWraps(|all|, totalLen32);
      h := Finalize(AddLength(h, Word(totalLen32)), mem[..memSize]);
    }
  }

  /** Hashing an input in pieces, however it is cut, gives the hash of the whole. */
  method HashPieces(pieces: seq<seq<byte>>, seed: bv32) returns (h: bv32)
    ensures h == Hash(Joined(pieces), seed)
  {
    hide Hash, Took, Init, Step, Fold, Rest;
    var state := new State();
    state.Reset(seed);
    assert pieces[..0] == [];
    for i := 0 to |pieces|
      invariant state.Holds(Joined(pieces[..i]), seed)
      invariant fresh(state) && fresh(state.mem)
    {
      state.Update(pieces[i], Joined(pieces[..i]), seed);
      assert pieces[..i + 1] == pieces[..i] + [pieces[i]];
      JoinedStep(pieces[..i], pieces[i]);
    }
    assert pieces[..|pieces|] == pieces;
    h := state.Digest(Joined(pieces), seed);
  }
}
