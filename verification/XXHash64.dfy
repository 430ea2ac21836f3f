/** XXH64: the hash of a whole input, and the state that takes the input in pieces. */
module XXHash64 {
  import opened Pieces
  import opened XXHashStripes

  const PRIME_1: bv64 := 11400714785074694791
  const PRIME_2: bv64 := 14029467366897019727
  const PRIME_3: bv64 := 1609587929392839161
  const PRIME_4: bv64 := 9650029242287828579
  const PRIME_5: bv64 := 2870177450012600261

  const WORD := 0x1_0000_0000_0000_0000
  const STRIPE := 32

  datatype Lanes = Lanes(v1: bv64, v2: bv64, v3: bv64, v4: bv64)

  function Rotl(x: bv64, r: bv7): bv64
    requires r <= 64
  {
    (x << r) | (x >> (64 - r))
  }

  function Times(x: bv64, k: bv64): bv64 {
    x * k
  }

  /** A count as it is kept in a word. */
  function Wrapped(n: nat): nat {
    n % WORD
  }

  lemma WrappedSum(n: nat, m: nat)
    ensures Wrapped(Wrapped(n) + m) == Wrapped(n + m)
  {}

  function Word(n: nat): bv64 {
    (n % WORD) as bv64
  }

  /** Four bytes, the lowest one first. */
  function Read32(s: seq<byte>): bv64
    requires |s| == 4
  {
    (s[0] as bv64) | ((s[1] as bv64) << 8) | ((s[2] as bv64) << 16) | ((s[3] as bv64) << 24)
  }

  function Read64(s: seq<byte>): bv64
    requires |s| == 8
  {
    Read32(s[..4]) | (Read32(s[4..]) << 32)
  }

  function Round(acc: bv64, input: bv64): bv64 {
    Times(Rotl(acc + Times(input, PRIME_2), 31), PRIME_1)
  }

  function MergeRound(acc: bv64, val: bv64): bv64 {
    Times(acc ^ Round(0, val), PRIME_1) + PRIME_4
  }

  function Init(seed: bv64): Lanes {
    Lanes(seed + PRIME_1 + PRIME_2, seed + PRIME_2, seed + 0, seed - PRIME_1)
  }

  function Step(v: Lanes, s: seq<byte>): Lanes
    requires |s| == STRIPE
  {
    Lanes(Round(v.v1, Read64(s[..8])), Round(v.v2, Read64(s[8..16])),
          Round(v.v3, Read64(s[16..24])), Round(v.v4, Read64(s[24..])))
  }

  function Sum(a: bv64, b: bv64, c: bv64, d: bv64): bv64 {
    a + b + c + d
  }

  /** The four lanes made into one. */
  function Converge(v: Lanes): bv64 {
    var h := Sum(Rotl(v.v1, 1), Rotl(v.v2, 7), Rotl(v.v3, 12), Rotl(v.v4, 18));
    MergeRound(MergeRound(MergeRound(MergeRound(h, v.v1), v.v2), v.v3), v.v4)
  }

  function Take8(h: bv64, w: bv64): bv64 {
    Times(Rotl(h ^ Round(0, w), 27), PRIME_1) + PRIME_4
  }

  function Take4(h: bv64, w: bv64): bv64 {
    Times(Rotl(h ^ Times(w, PRIME_1), 23), PRIME_2) + PRIME_3
  }

  function Mix8(h: bv64, s: seq<byte>): bv64
    requires |s| == 8
  {
    Take8(h, Read64(s))
  }

  function Mix4(h: bv64, s: seq<byte>): bv64
    requires |s| == 4
  {
    Take4(h, Read32(s))
  }

  function Take1(h: bv64, w: bv64): bv64 {
    Times(Rotl(h ^ Times(w, PRIME_5), 11), PRIME_1)
  }

  function Mix1(h: bv64, b: byte): bv64 {
    Take1(h, b as bv64)
  }

  /** The rest of the input, less than a stripe: words first, then at most one half word, then bytes. */
  function Tail(h: bv64, t: seq<byte>): bv64
    decreases |t|
  {
    if |t| >= 8 then Tail(Mix8(h, t[..8]), t[8..])
    else if |t| >= 4 then Tail(Mix4(h, t[..4]), t[4..])
    else if |t| >= 1 then Tail(Mix1(h, t[0]), t[1..])
    else h
  }

  function Avalanche(h: bv64): bv64 {
    var a := Times(h ^ (h >> 33), PRIME_2);
    var b := Times(a ^ (a >> 29), PRIME_3);
    b ^ (b >> 32)
  }

  /** Where the hash of an input without a full stripe starts. */
  function Start(seed: bv64): bv64 {
    seed + PRIME_5
  }

  function AddLength(h: bv64, length: bv64): bv64 {
    h + length
  }

  /** The third lane still is the seed then. */
  lemma StartFromLane(seed: bv64)
    ensures Start(Init(seed).v3) == Start(seed)
  {}

  /** The hash of an input, in the steps of the algorithm's description. */
  ghost function Hash(data: seq<byte>, seed: bv64): bv64 {
    var h := if |data| >= STRIPE then Converge(Fold(Step, STRIPE, Init(seed), data)) else Start(seed);
    Avalanche(Tail(AddLength(h, Word(|data|)), Rest(data, STRIPE)))
  }

  /** Only the low word of the length goes into the hash. */
  lemma WordWraps(n: nat)
    ensures Word(Wrapped(n)) == Word(n)
  {
    assert Wrapped(n) % WORD == n % WORD;
  }

  /** The count of what came in has not wrapped to less than a stripe. */
  predicate Counted(n: nat) {
    n < STRIPE || Wrapped(n) >= STRIPE
  }

  /** What is made of an input that came in pieces: where the count has wrapped the four lanes are not made into one. */
  ghost function Digested(data: seq<byte>, seed: bv64): bv64 {
    var v := Fold(Step, STRIPE, Init(seed), data);
    var h := if Wrapped(|data|) >= STRIPE then Converge(v) else Start(v.v3);
    Avalanche(Tail(AddLength(h, Word(|data|)), Rest(data, STRIPE)))
  }

  /** It is the hash as long as the count has not wrapped in that way. */
  lemma DigestedIsHash(data: seq<byte>, seed: bv64)
    requires Counted(|data|)
    ensures Digested(data, seed) == Hash(data, seed)
  {
    hide Step, Init, Converge, Avalanche, Tail, Start, AddLength, Word, Rest;
    StartFromLane(seed);
  }

  method Finalize(start: bv64, t: seq<byte>) returns (h: bv64)
    ensures h == Avalanche(Tail(start, t))
  {
    hide Mix8, Mix4, Mix1, Avalanche;
    h := start;
    var p := 0;
    while p + 8 <= |t|
      invariant p <= |t| && Tail(h, t[p..]) == Tail(start, t)
    {
      assert t[p..][..8] == t[p..p + 8] && t[p..][8..] == t[p + 8..];
      h := Mix8(h, t[p..p + 8]);
      p := p + 8;
    }
    if p + 4 <= |t| {
      assert t[p..][..4] == t[p..p + 4] && t[p..][4..] == t[p + 4..];
      h := Mix4(h, t[p..p + 4]);
      p := p + 4;
    }
    while p < |t|
      invariant |t| - 4 < p <= |t| && Tail(h, t[p..]) == Tail(start, t)
    {
      assert t[p..][1..] == t[p + 1..];
      h := Mix1(h, t[p]);
      p := p + 1;
    }
    h := Avalanche(h);
  }

  method XXH64(data: seq<byte>, seed: bv64) returns (h: bv64)
    ensures h == Hash(data, seed)
  {
    hide Step, Init, Converge, Avalanche, Tail, Fold, Start, AddLength, Word, Rest, Took;
    var p := 0;
    assert data[..0] == [];
    TookNothing(Step, STRIPE, Init(seed));
    if |data| >= STRIPE {
      var limit := |data| - STRIPE;
      var v := Init(seed);
      while p <= limit
        invariant p <= |data| && Took(Step, STRIPE, Init(seed), data[..p], v, [])
      {
        TookStripe(Step, STRIPE, Init(seed), data[..p], v, data[p..p + STRIPE]);
        assert data[..p] + data[p..p + STRIPE] == data[..p + STRIPE];
        v := Step(v, data[p..p + STRIPE]);
        p := p + STRIPE;
      }
      TookAll(Step, STRIPE, Init(seed), data, p, v);
      h := Converge(v);
    } else {
      TookAll(Step, STRIPE, Init(seed), data, p, Init(seed));
      h := Start(seed);
    }
    h := Finalize(AddLength(h, Word(|data|)), data[p..]);
  }

  /** The state of a hash whose input arrives in pieces. */
  class State {
    var totalLen: nat
    var lanes: Lanes
    const mem: array<byte>
    var memSize: nat

    /** Everything the state was given since it was reset with `seed` is `all`. */
    ghost predicate Holds(all: seq<byte>, seed: bv64)
      reads this, mem
    {
      && mem.Length == STRIPE && memSize < STRIPE
      && totalLen == Wrapped(|all|)
      && Took(Step, STRIPE, Init(seed), all, lanes, mem[..memSize])
    }

    constructor ()
      ensures mem.Length == STRIPE && fresh(mem)
    {
      totalLen, lanes, memSize := 0, Lanes(0, 0, 0, 0), 0;
      mem := new byte[STRIPE](_ => 0);
    }

    method Reset(seed: bv64)
      requires mem.Length == STRIPE
      modifies this, mem
      ensures Holds([], seed)
    {
      hide Init, Step, Fold, Took;
      for i := 0 to STRIPE {
        mem[i] := 0;
      }
      totalLen, memSize := 0, 0;
      lanes := Init(seed);
      TookNothing(Step, STRIPE, lanes);
      assert mem[..0] == [];
    }

    /** Copies `input` into the buffer, behind what waits there. */
    method Store(input: seq<byte>)
      requires mem.Length == STRIPE && memSize + |input| <= STRIPE
      modifies mem
      ensures mem[..memSize + |input|] == old(mem[..memSize]) + input
    {
      for i := 0 to |input|
        invariant mem[..memSize] == old(mem[..memSize])
        invariant forall k :: 0 <= k < i ==> mem[memSize + k] == input[k]
      {
        mem[memSize + i] := input[i];
      }
    }

    method Update(input: seq<byte>, ghost all: seq<byte>, ghost seed: bv64)
      requires Holds(all, seed)
      modifies this, mem
      ensures Holds(all + input, seed)
    {
      hide Init, Step, Fold, Rest, Took, Wrapped;
      WrappedSum(|all|, |input|);
      totalLen := Wrapped(totalLen + |input|);
      if memSize + |input| < STRIPE {
        TookLittle(Step, STRIPE, Init(seed), all, lanes, mem[..memSize], input);
        Store(input);
        memSize := memSize + |input|;
        return;
      }
      var p := FillBuffer(input, all, seed);
      p := TakeStripes(input, p, all, seed);
      TookLittle(Step, STRIPE, Init(seed), all + input[..p], lanes, [], input[p..]);
      assert all + input[..p] + input[p..] == all + input && [] + input[p..] == input[p..];
      assert mem[..0] == [];
      Store(input[p..]);
      memSize := |input| - p;
    }

    /** A buffer that holds something is filled up and taken in. */
    method FillBuffer(input: seq<byte>, ghost all: seq<byte>, ghost seed: bv64) returns (p: nat)
      requires mem.Length == STRIPE && memSize < STRIPE <= memSize + |input|
      requires Took(Step, STRIPE, Init(seed), all, lanes, mem[..memSize])
      modifies this, mem
      ensures p <= |input| && memSize == 0 && totalLen == old(totalLen)
      ensures Took(Step, STRIPE, Init(seed), all + input[..p], lanes, [])
    {
      hide Init, Step, Fold, Rest, Took;
      p := 0;
      assert all + input[..0] == all && mem[..0] == [];
      if memSize > 0 {
        p := STRIPE - memSize;
        TookBuffer(Step, STRIPE, Init(seed), all, lanes, mem[..memSize], input[..p]);
        Store(input[..p]);
        lanes := Step(lanes, mem[..STRIPE]);
        memSize := 0;
      }
    }

    /** Full stripes straight from the input. */
    method TakeStripes(input: seq<byte>, start: nat, ghost all: seq<byte>, ghost seed: bv64) returns (p: nat)
      requires start <= |input| && Took(Step, STRIPE, Init(seed), all + input[..start], lanes, [])
      modifies this`lanes
      ensures start <= p <= |input| < p + STRIPE
      ensures Took(Step, STRIPE, Init(seed), all + input[..p], lanes, [])
    {
      hide Init, Step, Fold, Rest, Took;
      p := start;
      while p + STRIPE <= |input|
        invariant start <= p <= |input| && Took(Step, STRIPE, Init(seed), all + input[..p], lanes, [])
      {
        TookStripe(Step, STRIPE, Init(seed), all + input[..p], lanes, input[p..p + STRIPE]);
        assert all + input[..p] + input[p..p + STRIPE] == all + input[..p + STRIPE];
        lanes := Step(lanes, input[p..p + STRIPE]);
        p := p + STRIPE;
      }
    }

    method Digest(ghost all: seq<byte>, ghost seed: bv64) returns (h: bv64)
      requires Holds(all, seed)
      ensures h == Digested(all, seed)
      ensures Counted(|all|) ==> h == Hash(all, seed)
    {
      hide Step, Fold, Init, Converge, Tail, Avalanche, Took, Rest, Start, AddLength, Word, Wrapped, Hash;
      TookMeans(Step, STRIPE, Init(seed), all, lanes, mem[..memSize]);
      h := if totalLen >= STRIPE then Converge(lanes) else Start(lanes.v3);
      h := Finalize(AddLength(h, Word(totalLen)), mem[..memSize]);
      WordWraps(|all|);
      if Counted(|all|) { DigestedIsHash(all, seed); }
    }
  }

  /** Hashing an input in pieces, however it is cut, gives the hash of the whole, unless the count wraps to very few. */
  method HashPieces(pieces: seq<seq<byte>>, seed: bv64) returns (h: bv64)
    ensures h == Digested(Joined(pieces), seed)
    ensures Counted(|Joined(pieces)|) ==> h == Hash(Joined(pieces), seed)
  {
    hide Hash, Digested, Counted, Took, Init, Step, Fold, Rest;
    var state := new State();
    state.Reset(seed);
    assert pieces[..0] == [];
    for i := 0 to |pieces|
      invariant state.Holds(Joined(pieces[..i]), seed)
      invariant fresh(state) && fresh(state.mem)
    {
      state.Update(pieces[i], Joined(pieces[..i]), seed);
      assert pieces[..i + 1] == pieces[..i] + [pieces[i]];
      JoinedStep(pieces[..i], pieces[i]);
    }
    assert pieces[..|pieces|] == pieces;
    h := state.Digest(Joined(pieces), seed);
  }
}
