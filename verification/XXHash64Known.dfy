/** XXH64 in terms of sums, products and quotients modulo the word, and digests that are known. */
module XXHash64Known {
  import opened XXHash64
  import opened XXHashStripes

  // ---- The steps, as the algorithm's description has them ----

  // Rotating to the left multiplies, and what falls off comes back by division.

  function Turned1(x: bv64): bv64 {
    x * 0x2 + x / 0x8000_0000_0000_0000
  }

  lemma Turn1(x: bv64)
    ensures Rotl(x, 1) == Turned1(x)
  {}

  function Turned7(x: bv64): bv64 {
    x * 0x80 + x / 0x200_0000_0000_0000
  }

  lemma Turn7(x: bv64)
    ensures Rotl(x, 7) == Turned7(x)
  {}

  function Turned11(x: bv64): bv64 {
    x * 0x800 + x / 0x20_0000_0000_0000
  }

  lemma Turn11(x: bv64)
    ensures Rotl(x, 11) == Turned11(x)
  {}

  function Turned12(x: bv64): bv64 {
    x * 0x1000 + x / 0x10_0000_0000_0000
  }

  lemma Turn12(x: bv64)
    ensures Rotl(x, 12) == Turned12(x)
  {}

  function Turned18(x: bv64): bv64 {
    x * 0x4_0000 + x / 0x4000_0000_0000
  }

  lemma Turn18(x: bv64)
    ensures Rotl(x, 18) == Turned18(x)
  {}

  function Turned23(x: bv64): bv64 {
    x * 0x80_0000 + x / 0x200_0000_0000
  }

  lemma Turn23(x: bv64)
    ensures Rotl(x, 23) == Turned23(x)
  {}

  function Turned27(x: bv64): bv64 {
    x * 0x800_0000 + x / 0x20_0000_0000
  }

  lemma Turn27(x: bv64)
    ensures Rotl(x, 27) == Turned27(x)
  {}

  function Turned31(x: bv64): bv64 {
    x * 0x8000_0000 + x / 0x2_0000_0000
  }

  lemma Turn31(x: bv64)
    ensures Rotl(x, 31) == Turned31(x)
  {}

  lemma Shifts(x: bv64)
    ensures x >> 29 == x / 0x2000_0000 && x >> 32 == x / 0x1_0000_0000 && x >> 33 == x / 0x2_0000_0000
  {}

  lemma HalfWord(s: seq<byte>)
    requires |s| == 4
    ensures Read32(s)
         == (s[0] as bv64) + (s[1] as bv64) * 0x100 + (s[2] as bv64) * 0x1_0000 + (s[3] as bv64) * 0x100_0000
    ensures Read32(s) <= 0xFFFF_FFFF
  {}

  lemma WholeWord(s: seq<byte>)
    requires |s| == 8
    ensures Read64(s) == Read32(s[..4]) + Read32(s[4..]) * 0x1_0000_0000
  {
    hide Read32;
    HalfWord(s[..4]);
    HalfWord(s[4..]);
  }

  lemma RoundIs(acc: bv64, lane: bv64)
    ensures var a := acc + Times(lane, 0xC2B2_AE3D_27D4_EB4F);
            Round(acc, lane) == Times(Turned31(a), 0x9E37_79B1_85EB_CA87)
  {
    hide Rotl, Times, Turned31;
    Turn31(acc + Times(lane, PRIME_2));
  }

  lemma AvalancheIs(h: bv64)
    ensures var a := Times(h ^ (h / 0x2_0000_0000), 0xC2B2_AE3D_27D4_EB4F);
            var b := Times(a ^ (a / 0x2000_0000), 0x1656_67B1_9E37_79F9);
            Avalanche(h) == b ^ (b / 0x1_0000_0000)
  {
    hide Times;
    Shifts(h);
    var a := Times(h ^ (h >> 33), PRIME_2);
    Shifts(a);
    Shifts(Times(a ^ (a >> 29), PRIME_3));
  }

  lemma ConvergeIs(v: Lanes)
    ensures var h := Sum(Turned1(v.v1), Turned7(v.v2),
                         Turned12(v.v3), Turned18(v.v4));
            Converge(v) == MergeRound(MergeRound(MergeRound(MergeRound(h, v.v1), v.v2), v.v3), v.v4)
  {
    hide Rotl, MergeRound, Turned1, Turned7, Turned12, Turned18, Sum;
    Turn1(v.v1);
    Turn7(v.v2);
    Turn12(v.v3);
    Turn18(v.v4);
  }

  lemma Take8Is(h: bv64, w: bv64)
    ensures var a := h ^ Round(0, w);
            Take8(h, w) ==
            Times(Turned27(a), 0x9E37_79B1_85EB_CA87) + 0x85EB_CA77_C2B2_AE63
  {
    hide Rotl, Round, Times, Turned27;
    Turn27(h ^ Round(0, w));
  }

  lemma Take4Is(h: bv64, w: bv64)
    ensures var a := h ^ Times(w, 0x9E37_79B1_85EB_CA87);
            Take4(h, w) ==
            Times(Turned23(a), 0xC2B2_AE3D_27D4_EB4F) + 0x1656_67B1_9E37_79F9
  {
    hide Rotl, Times, Turned23;
    Turn23(h ^ Times(w, PRIME_1));
  }

  lemma Take1Is(h: bv64, w: bv64)
    ensures var a := h ^ Times(w, 0x27D4_EB2F_1656_67C5);
            Take1(h, w) == Times(Turned11(a), 0x9E37_79B1_85EB_CA87)
  {
    hide Rotl, Times, Turned11;
    Turn11(h ^ Times(w, PRIME_5));
  }

  lemma MergeRoundIs(acc: bv64, lane: bv64)
    ensures MergeRound(acc, lane) == Times(acc ^ Round(0, lane), 0x9E37_79B1_85EB_CA87) + 0x85EB_CA77_C2B2_AE63
  {
    hide Round, Times;
  }

  // ---- Digests ----

  lemma ShortRest(t: seq<byte>)
    requires |t| < 32
    ensures Rest(t, 32) == t
  {}

  lemma Short(t: seq<byte>, seed: bv64)
    requires |t| < 32
    ensures Hash(t, seed) == Avalanche(Tail(AddLength(Start(seed), Word(|t|)), t))
  {
    hide Avalanche, Tail, AddLength, Start, Word, Converge, Step, Init, Rest;
    ShortRest(t);
  }

  lemma Tail1(h: bv64, b: byte)
    ensures Tail(h, [b]) == Mix1(h, b)
  {
    hide Mix1;
    assert [b][1..] == [];
  }

  lemma Tail4(h: bv64, s: seq<byte>, rest: seq<byte>)
    requires |s| == 4 && |rest| < 4
    ensures Tail(h, s + rest) == Tail(Mix4(h, s), rest)
  {
    hide Mix4;
    assert (s + rest)[..4] == s && (s + rest)[4..] == rest;
  }

  lemma Tail8(h: bv64, s: seq<byte>, rest: seq<byte>)
    requires |s| == 8
    ensures Tail(h, s + rest) == Tail(Mix8(h, s), rest)
  {
    hide Mix8;
    assert (s + rest)[..8] == s && (s + rest)[8..] == rest;
  }

  lemma Empty()
    ensures Hash([], 0) == 0xEF46_DB37_51D8_E999
  {
    hide Hash;
    Short([], 0);
  }

  lemma One(seed: bv64)
    requires seed <= 1
    ensures Hash([0x61], seed) == if seed == 0 then 0xD24E_C4F1_A98C_6E5B else 0xDEC2_BC81_C3CD_46C6
  {
    hide Hash, Tail, Mix1, Avalanche;
    Short([0x61], seed);
    Tail1(AddLength(Start(seed), Word(1)), 0x61);
    OneNumbers();
    assert AddLength(Start(seed), Word(1)) == if seed == 0 then 0x27D4_EB2F_1656_67C6 else 0x27D4_EB2F_1656_67C7;
  }

  lemma OneNumbers()
    ensures Mix1(0x27D4_EB2F_1656_67C6, 0x61) == 0xB865_97E4_19D4_D215
    ensures Avalanche(0xB865_97E4_19D4_D215) == 0xD24E_C4F1_A98C_6E5B
    ensures Mix1(0x27D4_EB2F_1656_67C7, 0x61) == 0xFC98_0BB4_BB80_9A15
    ensures Avalanche(0xFC98_0BB4_BB80_9A15) == 0xDEC2_BC81_C3CD_46C6
  {}

  lemma Four()
    ensures Hash([0x61, 0x62, 0x63, 0x64], 0) == 0xDE03_27B0_D25D_92CC
  {
    hide Hash, Tail, Take4, Avalanche;
    var s: seq<byte> := [0x61, 0x62, 0x63, 0x64];
    Short(s, 0);
    Tail4(0x27D4_EB2F_1656_67C9, s, []);
    assert s + [] == s;
    TailNone(Mix4(0x27D4_EB2F_1656_67C9, s));
    assert AddLength(Start(0), Word(4)) == 0x27D4_EB2F_1656_67C9;
    assert Read32(s) == 0x6463_6261;
    FourNumbers();
  }

  lemma TailNone(h: bv64)
    ensures Tail(h, []) == h
  {}

  lemma FourNumbers()
    ensures Take4(0x27D4_EB2F_1656_67C9, 0x6463_6261) == 0x00E0_8A54_99BA_7DCB
    ensures Avalanche(0x00E0_8A54_99BA_7DCB) == 0xDE03_27B0_D25D_92CC
  {}

  lemma Eight()
    ensures Hash([0x61, 0x62, 0x63, 0x64, 0x65, 0x66, 0x67, 0x68], 0) == 0x3AD3_5177_5B46_34B7
  {
    hide Hash, Tail, Take8, Avalanche, Read32;
    var s: seq<byte> := [0x61, 0x62, 0x63, 0x64, 0x65, 0x66, 0x67, 0x68];
    Short(s, 0);
    Tail8(0x27D4_EB2F_1656_67CD, s, []);
    assert s + [] == s;
    TailNone(Mix8(0x27D4_EB2F_1656_67CD, s));
    assert AddLength(Start(0), Word(8)) == 0x27D4_EB2F_1656_67CD;
    Words([0x61, 0x62, 0x63, 0x64], [0x65, 0x66, 0x67, 0x68]);
    assert s == [0x61, 0x62, 0x63, 0x64] + [0x65, 0x66, 0x67, 0x68];
    EightNumbers();
  }

  lemma EightNumbers()
    ensures Take8(0x27D4_EB2F_1656_67CD, 0x6867_6665_6463_6261) == 0xA119_981D_165A_D1DF
    ensures Avalanche(0xA119_981D_165A_D1DF) == 0x3AD3_5177_5B46_34B7
  {}

  lemma WordOf(a: byte, b: byte, c: byte, d: byte)
    ensures Read32([a, b, c, d])
         == (a as bv64) + (b as bv64) * 0x100 + (c as bv64) * 0x1_0000 + (d as bv64) * 0x100_0000
  {
    HalfWord([a, b, c, d]);
  }

  lemma Words(a: seq<byte>, b: seq<byte>)
    requires |a| == 4 && |b| == 4
    ensures Read64(a + b)
         == (a[0] as bv64) + (a[1] as bv64) * 0x100 + (a[2] as bv64) * 0x1_0000 + (a[3] as bv64) * 0x100_0000
          + ((b[0] as bv64) + (b[1] as bv64) * 0x100 + (b[2] as bv64) * 0x1_0000 + (b[3] as bv64) * 0x100_0000)
            * 0x1_0000_0000
  {
    hide Read64, Read32;
    HalfWord(a);
    HalfWord(b);
    WholeWord(a + b);
    assert (a + b)[..4] == a && (a + b)[4..] == b;
  }

  // ---- An input with a stripe and all kinds of rest ----

  lemma StripeRest(s: seq<byte>, t: seq<byte>)
    requires |s| == 32 && |t| < 32
    ensures Rest(s + t, 32) == t
    ensures (s + t)[..32] == s && (s + t)[32..] == t
  {}

  lemma OneStripe(s: seq<byte>, t: seq<byte>, seed: bv64)
    requires |s| == 32 && |t| < 32
    ensures Hash(s + t, seed)
         == Avalanche(Tail(AddLength(Converge(Step(Init(seed), s)), Word(32 + |t|)), t))
  {
    hide Avalanche, Tail, AddLength, Start, Word, Converge, Step, Init, Rest;
    StripeRest(s, t);
    assert Fold(Step, 32, Step(Init(seed), s), t) == Step(Init(seed), s);
  }

  lemma FourWords(v: Lanes, a: seq<byte>, b: seq<byte>, c: seq<byte>, d: seq<byte>)
    requires |a| == |b| == |c| == |d| == 8
    ensures Step(v, a + b + c + d)
         == Lanes(Round(v.v1, Read64(a)), Round(v.v2, Read64(b)), Round(v.v3, Read64(c)), Round(v.v4, Read64(d)))
  {
    hide Round, Read64;
    var s := a + b + c + d;
    assert s[..8] == a && s[8..16] == b && s[16..24] == c && s[24..] == d;
  }

  /** Eight bytes that count up from `i`. */
  function Up(i: byte): (r: seq<byte>)
    ensures |r| == 8
  {
    [i, i + 1, i + 2, i + 3] + [i + 4, i + 5, i + 6, i + 7]
  }

  lemma UpWords()
    ensures Read64(Up(0)) == 0x0706_0504_0302_0100 && Read64(Up(8)) == 0x0F0E_0D0C_0B0A_0908
    ensures Read64(Up(16)) == 0x1716_1514_1312_1110 && Read64(Up(24)) == 0x1F1E_1D1C_1B1A_1918
    ensures Read64(Up(32)) == 0x2726_2524_2322_2120
  {
    hide Read64;
    Words([0, 1, 2, 3], [4, 5, 6, 7]);
    Words([8, 9, 10, 11], [12, 13, 14, 15]);
    Words([16, 17, 18, 19], [20, 21, 22, 23]);
    Words([24, 25, 26, 27], [28, 29, 30, 31]);
    Words([32, 33, 34, 35], [36, 37, 38, 39]);
  }

  lemma LaneNumbers()
    ensures Round(Init(0).v1, 0x0706_0504_0302_0100) == 0xF4B5_3B57_406B_5E99
    ensures Round(Init(0).v2, 0x0F0E_0D0C_0B0A_0908) == 0xC3D3_4B51_1FC3_2561
    ensures Round(Init(0).v3, 0x1716_1514_1312_1110) == 0xCB26_C007_C8A1_553F
    ensures Round(Init(0).v4, 0x1F1E_1D1C_1B1A_1918) == 0x9A44_D001_A7F9_1C07
  {}

  lemma ConvergeNumbers()
    ensures Converge(Lanes(0xF4B5_3B57_406B_5E99, 0xC3D3_4B51_1FC3_2561, 0xCB26_C007_C8A1_553F, 0x9A44_D001_A7F9_1C07))
         == 0xC845_DBC8_8C41_1C2D
  {}

  lemma RestNumbers()
    ensures Take8(0xC845_DBC8_8C41_1C5A, 0x2726_2524_2322_2120) == 0xEF1F_7486_253B_DE8D
    ensures Take4(0xEF1F_7486_253B_DE8D, 0x2B2A_2928) == 0xA246_B855_FD2A_4741
    ensures Mix1(0xA246_B855_FD2A_4741, 44) == 0xF5B3_EB29_C011_39DA
    ensures Avalanche(0xF5B3_EB29_C011_39DA) == 0x10FD_D84D_6409_ABDF
  {}

  lemma UpStripe(t: seq<byte>)
    requires |t| == 13
    ensures Hash((Up(0) + Up(8) + Up(16) + Up(24)) + t, 0) == Avalanche(Tail(0xC845_DBC8_8C41_1C5A, t))
  {
    hide Hash, Tail, Avalanche, Read64, Converge, Init, Step, Round, Up;
    OneStripe(Up(0) + Up(8) + Up(16) + Up(24), t, 0);
    FourWords(Init(0), Up(0), Up(8), Up(16), Up(24));
    UpWords();
    LaneNumbers();
    ConvergeNumbers();
    assert AddLength(0xC845_DBC8_8C41_1C2D, Word(45)) == 0xC845_DBC8_8C41_1C5A;
  }

  lemma UpTail()
    ensures Tail(0xC845_DBC8_8C41_1C5A, Up(32) + ([40, 41, 42, 43] + [44])) == 0xF5B3_EB29_C011_39DA
  {
    hide Tail, Take8, Take4, Mix1, Read32, Read64, Up;
    UpWords();
    RestNumbers();
    Tail8(0xC845_DBC8_8C41_1C5A, Up(32), [40, 41, 42, 43] + [44]);
    Tail4(0xEF1F_7486_253B_DE8D, [40, 41, 42, 43], [44]);
    WordOf(40, 41, 42, 43);
    Tail1(0xA246_B855_FD2A_4741, 44);
  }

  /** The bytes from 0 to 44: a stripe, eight bytes, four and one. */
  lemma FortyFive()
    ensures Hash((Up(0) + Up(8) + Up(16) + Up(24)) + (Up(32) + ([40, 41, 42, 43] + [44])), 0) == 0x10FD_D84D_6409_ABDF
  {
    hide Hash, Tail, Avalanche, Up;
    UpStripe(Up(32) + ([40, 41, 42, 43] + [44]));
    UpTail();
    RestNumbers();
  }
}
