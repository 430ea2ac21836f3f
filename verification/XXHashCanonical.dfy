/** Hashes as byte strings, the highest byte first. */
module XXHashCanonical {
  import opened XXHashStripes
  import X32 = XXHash32
  import X64 = XXHash64

  function Swap32(x: bv32): bv32 {
    ((x << 24) & 0xff000000) | ((x << 8) & 0x00ff0000) | ((x >> 8) & 0x0000ff00) | ((x >> 24) & 0x000000ff)
  }

  function Swap64(x: bv64): bv64 {
    ((x << 56) & 0xff00000000000000) | ((x << 40) & 0x00ff000000000000) | ((x << 24) & 0x0000ff0000000000)
    | ((x << 8) & 0x000000ff00000000) | ((x >> 8) & 0x00000000ff000000) | ((x >> 24) & 0x0000000000ff0000)
    | ((x >> 40) & 0x000000000000ff00) | ((x >> 56) & 0x00000000000000ff)
  }

  /** A word as it lies in memory, the lowest byte first. */
  function Memory32(x: bv32): (s: seq<byte>)
    ensures |s| == 4
  {
    [(x & 0xff) as byte, ((x >> 8) & 0xff) as byte, ((x >> 16) & 0xff) as byte, ((x >> 24) & 0xff) as byte]
  }

  function Memory64(x: bv64): (s: seq<byte>)
    ensures |s| == 8
  {
    [(x & 0xff) as byte, ((x >> 8) & 0xff) as byte, ((x >> 16) & 0xff) as byte, ((x >> 24) & 0xff) as byte,
     ((x >> 32) & 0xff) as byte, ((x >> 40) & 0xff) as byte, ((x >> 48) & 0xff) as byte, ((x >> 56) & 0xff) as byte]
  }

  function CanonicalFromHash32(hash: bv32): seq<byte> {
    Memory32(Swap32(hash))
  }

  function HashFromCanonical32(src: seq<byte>): bv32
    requires |src| == 4
  {
    Swap32(X32.Read32(src))
  }

  function CanonicalFromHash64(hash: bv64): seq<byte> {
    Memory64(Swap64(hash))
  }

  function HashFromCanonical64(src: seq<byte>): bv64
    requires |src| == 8
  {
    Swap64(X64.Read64(src))
  }

  lemma RoundTrip32(hash: bv32)
    ensures HashFromCanonical32(CanonicalFromHash32(hash)) == hash
    ensures CanonicalFromHash32(hash)[0] == ((hash >> 24) & 0xff) as byte
  {}

  lemma SwapTwice(x: bv64)
    ensures Swap64(Swap64(x)) == x
  {}

  lemma ReadMemory(x: bv64)
    ensures X64.Read64(Memory64(x)) == x
  {}

  lemma RoundTrip64(hash: bv64)
    ensures HashFromCanonical64(CanonicalFromHash64(hash)) == hash
  {
    hide Swap64, Memory64, X64.Read64;
    ReadMemory(Swap64(hash));
    SwapTwice(hash);
  }

  lemma SwapQuad(a: byte, b: byte, c: byte, d: byte)
    ensures Swap32(X32.Quad(a, b, c, d)) == X32.Quad(d, c, b, a)
  {}

  lemma MemoryQuad(a: byte, b: byte, c: byte, d: byte)
    ensures Memory32(X32.Quad(a, b, c, d)) == [a, b, c, d]
  {}

  /** Every byte string of the right length is the canonical form of some hash. */
  lemma AllForms32(src: seq<byte>)
    requires |src| == 4
    ensures CanonicalFromHash32(HashFromCanonical32(src)) == src
  {
    hide Swap32, Memory32, X32.Quad;
    SwapQuad(src[0], src[1], src[2], src[3]);
    SwapQuad(src[3], src[2], src[1], src[0]);
    MemoryQuad(src[0], src[1], src[2], src[3]);
  }
}
