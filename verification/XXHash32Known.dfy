/** XXH32 in terms of sums, products and quotients modulo the word, and digests that are known. */
module XXHash32Known {
  import opened XXHash32
  import opened XXHashStripes

  // ---- The steps, as the algorithm's description has them ----

  // Rotating to the left multiplies, and what falls off comes back by division.

  function Turned1(x: bv32): bv32 {
    x * 0x2 + x / 0x8000_0000
  }

  lemma Turn1(x: bv32)
    ensures Rotl(x, 1) == Turned1(x)
  {}

  function Turned7(x: bv32): bv32 {
    x * 0x80 + x / 0x200_0000
  }

  lemma Turn7(x: bv32)
    ensures Rotl(x, 7) == Turned7(x)
  {}

  function Turned11(x: bv32): bv32 {
    x * 0x800 + x / 0x20_0000
  }

  lemma Turn11(x: bv32)
    ensures Rotl(x, 11) == Turned11(x)
  {}

  function Turned12(x: bv32): bv32 {
    x * 0x1000 + x / 0x10_0000
  }

  lemma Turn12(x: bv32)
    ensures Rotl(x, 12) == Turned12(x)
  {}

  function Turned13(x: bv32): bv32 {
    x * 0x2000 + x / 0x8_0000
  }

  lemma Turn13(x: bv32)
    ensures Rotl(x, 13) == Turned13(x)
  {}

  function Turned17(x: bv32): bv32 {
    x * 0x2_0000 + x / 0x8000
  }

  lemma Turn17(x: bv32)
    ensures Rotl(x, 17) == Turned17(x)
  {}

  function Turned18(x: bv32): bv32 {
    x * 0x4_0000 + x / 0x4000
  }

  lemma Turn18(x: bv32)
    ensures Rotl(x, 18) == Turned18(x)
  {}

  lemma Shifts(x: bv32)
    ensures x >> 13 == x / 0x2000 && x >> 15 == x / 0x8000 && x >> 16 == x / 0x1_0000
  {}

  lemma WholeWord(s: seq<byte>)
    requires |s| == 4
    ensures Read32(s)
         == (s[0] as bv32) + (s[1] as bv32) * 0x100 + (s[2] as bv32) * 0x1_0000 + (s[3] as bv32) * 0x100_0000
  {}

  lemma RoundIs(acc: bv32, lane: bv32)
    ensures var a := acc + Times(lane, 0x85EB_CA77);
            Round(acc, lane) == Times(Turned13(a), 0x9E37_79B1)
  {
    hide Rotl, Times, Turned13;
    Turn13(acc + Times(lane, PRIME_2));
  }

  lemma ConvergeIs(v: Lanes)
    ensures Converge(v) == Sum(Turned1(v.v1), Turned7(v.v2),
                               Turned12(v.v3), Turned18(v.v4))
  {
    hide Rotl, Turned1, Turned7, Turned12, Turned18, Sum;
    Turn1(v.v1);
    Turn7(v.v2);
    Turn12(v.v3);
    Turn18(v.v4);
  }

  lemma Take4Is(h: bv32, w: bv32)
    ensures var a := h + Times(w, 0xC2B2_AE3D);
            Take4(h, w) == Times(Turned17(a), 0x27D4_EB2F)
  {
    hide Rotl, Times, Turned17;
    Turn17(h + Times(w, PRIME_3));
  }

  lemma Take1Is(h: bv32, w: bv32)
    ensures var a := h + Times(w, 0x1656_67B1);
            Take1(h, w) == Times(Turned11(a), 0x9E37_79B1)
  {
    hide Rotl, Times, Turned11;
    Turn11(h + Times(w, PRIME_5));
  }

  lemma AvalancheIs(h: bv32)
    ensures var a := Times(h ^ (h / 0x8000), 0x85EB_CA77);
            var b := Times(a ^ (a / 0x2000), 0xC2B2_AE3D);
            Avalanche(h) == b ^ (b / 0x1_0000)
  {
    hide Times;
    Shifts(h);
    var a := Times(h ^ (h >> 15), PRIME_2);
    Shifts(a);
    Shifts(Times(a ^ (a >> 13), PRIME_3));
  }

  // ---- Digests ----

  lemma ShortRest(t: seq<byte>)
    requires |t| < 16
    ensures Rest(t, 16) == t
  {}

  lemma Short(t: seq<byte>, seed: bv32)
    requires |t| < 16
    ensures Hash(t, seed) == Avalanche(Tail(AddLength(Start(seed), Word(|t|)), t))
  {
    hide Avalanche, Tail, AddLength, Start, Word, Converge, Step, Init, Rest;
    ShortRest(t);
  }

  lemma Tail1(h: bv32, b: byte)
    ensures Tail(h, [b]) == Mix1(h, b)
  {
    hide Mix1;
    assert [b][1..] == [];
  }

  lemma Tail4(h: bv32, s: seq<byte>, rest: seq<byte>)
    requires |s| == 4
    ensures Tail(h, s + rest) == Tail(Mix4(h, s), rest)
  {
    hide Mix4;
    assert (s + rest)[..4] == s && (s + rest)[4..] == rest;
  }

  lemma TailNone(h: bv32)
    ensures Tail(h, []) == h
  {}

  lemma WordOf(a: byte, b: byte, c: byte, d: byte)
    ensures Read32([a, b, c, d])
         == (a as bv32) + (b as bv32) * 0x100 + (c as bv32) * 0x1_0000 + (d as bv32) * 0x100_0000
  {
    WholeWord([a, b, c, d]);
  }

  lemma Empty()
    ensures Hash([], 0) == 0x02CC_5D05
  {
    hide Hash;
    Short([], 0);
  }

  lemma One(seed: bv32)
    requires seed <= 1
    ensures Hash([0x61], seed) == if seed == 0 then 0x550D_7456 else 0xF514_706F
  {
    hide Hash, Tail, Mix1, Avalanche;
    Short([0x61], seed);
    Tail1(AddLength(Start(seed), Word(1)), 0x61);
    OneNumbers();
    assert AddLength(Start(seed), Word(1)) == if seed == 0 then 0x1656_67B2 else 0x1656_67B3;
  }

  lemma OneNumbers()
    ensures Mix1(0x1656_67B2, 0x61) == 0x6506_CBE8 && Avalanche(0x6506_CBE8) == 0x550D_7456
    ensures Mix1(0x1656_67B3, 0x61) == 0x20D4_53E8 && Avalanche(0x20D4_53E8) == 0xF514_706F
  {}

  lemma Four()
    ensures Hash([0x61, 0x62, 0x63, 0x64], 0) == 0xA364_3705
  {
    hide Hash, Tail, Take4, Avalanche, Read32;
    var s: seq<byte> := [0x61, 0x62, 0x63, 0x64];
    Short(s, 0);
    Tail4(0x1656_67B5, s, []);
    assert s + [] == s;
    TailNone(Mix4(0x1656_67B5, s));
    assert AddLength(Start(0), Word(4)) == 0x1656_67B5;
    WordOf(0x61, 0x62, 0x63, 0x64);
    FourNumbers();
  }

  lemma FourNumbers()
    ensures Take4(0x1656_67B5, 0x6463_6261) == 0x7527_5207 && Avalanche(0x7527_5207) == 0xA364_3705
  {}

  // ---- An input with a stripe and all kinds of rest ----

  lemma StripeRest(s: seq<byte>, t: seq<byte>)
    requires |s| == 16 && |t| < 16
    ensures Rest(s + t, 16) == t
    ensures (s + t)[..16] == s && (s + t)[16..] == t
  {}

  lemma OneStripe(s: seq<byte>, t: seq<byte>, seed: bv32)
    requires |s| == 16 && |t| < 16
    ensures Hash(s + t, seed) == Avalanche(Tail(AddLength(Converge(Step(Init(seed), s)), Word(16 + |t|)), t))
  {
    hide Avalanche, Tail, AddLength, Start, Word, Converge, Step, Init, Rest;
    StripeRest(s, t);
    assert Fold(Step, 16, Step(Init(seed), s), t) == Step(Init(seed), s);
  }

  lemma FourWords(v: Lanes, a: seq<byte>, b: seq<byte>, c: seq<byte>, d: seq<byte>)
    requires |a| == |b| == |c| == |d| == 4
    ensures Step(v, a + b + c + d)
         == Lanes(Round(v.v1, Read32(a)), Round(v.v2, Read32(b)), Round(v.v3, Read32(c)), Round(v.v4, Read32(d)))
  {
    hide Round, Read32;
    var s := a + b + c + d;
    assert s[..4] == a && s[4..8] == b && s[8..12] == c && s[12..] == d;
  }

  lemma LaneNumbers()
    ensures Round(Init(0).v1, 0x0302_0100) == 0xF817_BCCB && Round(Init(0).v2, 0x0706_0504) == 0x0222_719B
    ensures Round(Init(0).v3, 0x0B0A_0908) == 0xD4B0_C0A4 && Round(Init(0).v4, 0x0F0E_0D0C) == 0xDEBB_7574
    ensures Converge(Lanes(0xF817_BCCB, 0x0222_719B, 0xD4B0_C0A4, 0xDEBB_7574)) == 0xE346_0F50
  {}

  lemma RestNumbers()
    ensures Take4(0xE346_0F65, 0x1312_1110) == 0x186F_3446
    ensures Mix1(0x186F_3446, 20) == 0x4D40_E6E9 && Avalanche(0x4D40_E6E9) == 0xC6BA_B491
  {}

  /** Four bytes that count up from `i`. */
  function Up(i: byte): (r: seq<byte>)
    ensures |r| == 4
  {
    [i, i + 1, i + 2, i + 3]
  }

  lemma UpWords()
    ensures Read32(Up(0)) == 0x0302_0100 && Read32(Up(4)) == 0x0706_0504
    ensures Read32(Up(8)) == 0x0B0A_0908 && Read32(Up(12)) == 0x0F0E_0D0C
    ensures Read32(Up(16)) == 0x1312_1110
  {
    hide Read32;
    WordOf(0, 1, 2, 3);
    WordOf(4, 5, 6, 7);
    WordOf(8, 9, 10, 11);
    WordOf(12, 13, 14, 15);
    WordOf(16, 17, 18, 19);
  }

  lemma UpStripe(t: seq<byte>)
    requires |t| == 5
    ensures Hash((Up(0) + Up(4) + Up(8) + Up(12)) + t, 0) == Avalanche(Tail(0xE346_0F65, t))
  {
    hide Hash, Tail, Avalanche, Read32, Converge, Init, Step, Round, Up;
    OneStripe(Up(0) + Up(4) + Up(8) + Up(12), t, 0);
    FourWords(Init(0), Up(0), Up(4), Up(8), Up(12));
    UpWords();
    LaneNumbers();
    assert AddLength(0xE346_0F50, Word(21)) == 0xE346_0F65;
  }

  /** The bytes from 0 to 20: a stripe, four bytes and one. */
  lemma TwentyOne()
    ensures Hash((Up(0) + Up(4) + Up(8) + Up(12)) + (Up(16) + [20]), 0) == 0xC6BA_B491
  {
    hide Hash, Tail, Take4, Mix1, Avalanche, Read32, Up;
    UpStripe(Up(16) + [20]);
    UpWords();
    RestNumbers();
    Tail4(0xE346_0F65, Up(16), [20]);
    Tail1(0x186F_3446, 20);
  }
}
