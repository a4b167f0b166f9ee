/**
  The 128-bit hash of the crate (src/murmur.rs): a MurmurHash3 x64_128 variant over
  two 64-bit lanes. All arithmetic is modulo 2^64, which Dafny's `bv64` gives us
  directly (`wrapping_mul`, `wrapping_add`, `rotate_left`, `^`, `>>`).

  `Hash` follows the source's chunk loop, including its early return from the
  short-chunk branch and the `Ok(1)` fall-through after the loop. `Reference`
  is Austin Appleby's always-finalising algorithm, the partner `Hash` is
  compared against.
 */
module Murmur {

  const C1: bv64 := 0x87c37b91114253d5
  const C2: bv64 := 0x4cf5ad432745937f

  /** The two lanes `h_seed1`, `h_seed2`. */
  datatype Lanes = Lanes(h1: bv64, h2: bv64)

  /** Both lanes start as the 32-bit seed widened to 64 bits (`seed as u64`). */
  function InitLanes(seed: bv32): (r: Lanes)
    ensures r.h1 == r.h2 && r.h1 >> 32 == 0 && r.h1 as bv32 == seed
  {
    Lanes(seed as bv64, seed as bv64)
  }

  /** The little-endian value of up to eight bytes; `LittleEndian::read_u64` on eight. */
  function LittleEndian(b: seq<bv8>): bv64
    requires |b| <= 8
  {
    if |b| == 0 then 0 else (b[0] as bv64) | (LittleEndian(b[1..]) << 8)
  }

  /** The multiply-rotate-multiply scrambles of the two words of a block. */
  function MixK1(k1: bv64): bv64 {
    (k1 * C1).RotateLeft(31) * C2
  }

  function MixK2(k2: bv64): bv64 {
    (k2 * C2).RotateLeft(33) * C1
  }

  /** Folds one full 16-byte block, split into its words `k1`, `k2`, into the lanes. */
  function FoldBlock(h: Lanes, k1: bv64, k2: bv64): Lanes {
    var a1 := ((h.h1 ^ MixK1(k1)).RotateLeft(27) + h.h2) * 5 + 0x52dce729;
    var a2 := ((h.h2 ^ MixK2(k2)).RotateLeft(31) + a1) * 5 + 0x38495ab5;
    Lanes(a1, a2)
  }

  /** The block of `data` starting at `pos`, folded into `h`. */
  function FoldAt(h: Lanes, data: seq<bv8>, pos: nat): Lanes
    requires pos + 16 <= |data|
  {
    FoldBlock(h, LittleEndian(data[pos..pos + 8]), LittleEndian(data[pos + 8..pos + 16]))
  }

  /** The tail's `k2` ladder: bytes 14 down to 8, each xored in at its byte position. */
  function TailK2(chunk: seq<bv8>): bv64
    requires |chunk| < 16
  {
    var rem := |chunk|;
    var k: bv64 := 0;
    var k := if rem >= 15 then k ^ ((chunk[14] as bv64) << 48) else k;
    var k := if rem >= 14 then k ^ ((chunk[13] as bv64) << 40) else k;
    var k := if rem >= 13 then k ^ ((chunk[12] as bv64) << 32) else k;
    var k := if rem >= 12 then k ^ ((chunk[11] as bv64) << 24) else k;
    var k := if rem >= 11 then k ^ ((chunk[10] as bv64) << 16) else k;
    var k := if rem >= 10 then k ^ ((chunk[9] as bv64) << 8) else k;
    if rem >= 9 then k ^ (chunk[8] as bv64) else k
  }

  /** The tail's `k1`: a full little-endian word from eight bytes on, else the byte ladder. */
  function TailK1(chunk: seq<bv8>): bv64
    requires |chunk| < 16
  {
    var rem := |chunk|;
    if rem >= 8 then LittleEndian(chunk[0..8])
    else
      var k: bv64 := 0;
      var k := if rem >= 7 then k ^ ((chunk[6] as bv64) << 48) else k;
      var k := if rem >= 6 then k ^ ((chunk[5] as bv64) << 40) else k;
      var k := if rem >= 5 then k ^ ((chunk[4] as bv64) << 32) else k;
      var k := if rem >= 4 then k ^ ((chunk[3] as bv64) << 24) else k;
      var k := if rem >= 3 then k ^ ((chunk[2] as bv64) << 16) else k;
      var k := if rem >= 2 then k ^ ((chunk[1] as bv64) << 8) else k;
      if rem >= 1 then k ^ (chunk[0] as bv64) else k
  }

  /** Mixes a short final chunk into the lanes: `k2` only from nine bytes on, `k1` always. */
  function MixTail(h: Lanes, chunk: seq<bv8>): Lanes
    requires 0 < |chunk| < 16
  {
    var h2 := if |chunk| >= 9 then h.h2 ^ MixK2(TailK2(chunk)) else h.h2;
    Lanes(h.h1 ^ MixK1(TailK1(chunk)), h2)
  }

  /** `fmix64`, the avalanche step. */
  function Fmix64(k: bv64): bv64 {
    var k := k ^ (k >> 33);
    var k := k * 0xff51afd7ed558ccd;
    var k := k ^ (k >> 33);
    var k := k * 0xc4ceb9fe1a85ec53;
    k ^ (k >> 33)
  }

  /** Packs `lo` into the low and `hi` into the high 64 bits of the result. */
  function Pack(lo: bv64, hi: bv64): bv128 {
    ((hi as bv128) << 64) | (lo as bv128)
  }

  /** The low and high halves of a 128-bit value. */
  function Unpack(x: bv128): Lanes {
    Lanes((x & 0xffff_ffff_ffff_ffff) as bv64, (x >> 64) as bv64)
  }

  /** `num_bytes as u64`: the count as a 64-bit word, counted up with wrap-around. */
  function Len64(n: nat): bv64 {
    if n == 0 then 0 else Len64(n - 1) + 1
  }

  /** The final mixes: length into both lanes, cross-add, `fmix64` each, cross-add, pack. */
  function Finalize(h: Lanes, len: nat): bv128 {
    var a1 := h.h1 ^ Len64(len);
    var a2 := h.h2 ^ Len64(len);
    var a1 := a1 + a2;
    var a2 := a2 + a1;
    var a1 := Fmix64(a1);
    var a2 := Fmix64(a2);
    var a1 := a1 + a2;
    var a2 := a2 + a1;
    Pack(a1, a2)
  }

  /** How the chunk loop ends: it runs out of chunks, or returns from the short-chunk branch. */
  datatype LoopExit = FellThrough | Returned(h: Lanes, numBytes: nat)

  /**
    The loop `for chunk in key_data.chunks(16)` from position `pos`, with the lanes
    `h` and the byte count `numBytes` so far. A full chunk is folded and the loop goes
    on; a short chunk is mixed in and the loop returns with the lanes and the count.
   */
  function ChunkLoop(data: seq<bv8>, pos: nat, h: Lanes, numBytes: nat): LoopExit
    requires pos <= |data|
    decreases |data| - pos
  {
    if pos == |data| then FellThrough
    else if |data| - pos >= 16 then ChunkLoop(data, pos + 16, FoldAt(h, data, pos), numBytes + 16)
    else Returned(MixTail(h, data[pos..]), numBytes + (|data| - pos))
  }

  /**
    `hash_mumur3(key, seed)`: finalisation happens only on the short-chunk return, and
    the fall-through after the loop is `Ok(1)`. Its `io::Result` is never `Err`, so the
    value is returned directly.
   */
  function Hash(data: seq<bv8>, seed: bv32): bv128 {
    match ChunkLoop(data, 0, InitLanes(seed), 0)
    case FellThrough => 1
    case Returned(h, numBytes) => Finalize(h, numBytes)
  }

  /** The lanes after folding every full block from `pos` on, block by block. */
  function BlocksFrom(data: seq<bv8>, pos: nat, h: Lanes): Lanes
    requires pos <= |data|
    decreases |data| - pos
  {
    if |data| - pos < 16 then h else BlocksFrom(data, pos + 16, FoldAt(h, data, pos))
  }

  /** The reference lanes before finalisation: every full block folded, a non-empty tail mixed. */
  function ReferenceLanes(data: seq<bv8>, seed: bv32): Lanes {
    var h := BlocksFrom(data, 0, InitLanes(seed));
    var rem := |data| % 16;
    if rem == 0 then h else MixTail(h, data[|data| - rem..])
  }

  /** Appleby's MurmurHash3_x64_128, which always finalises with the total length. */
  function Reference(data: seq<bv8>, seed: bv32): bv128 {
    Finalize(ReferenceLanes(data, seed), |data|)
  }

  /** A byte sequence's little-endian value, one byte peeled off. */
  lemma LittleEndianStep(b: seq<bv8>)
    requires 0 < |b| <= 8
    ensures LittleEndian(b) == (b[0] as bv64) | (LittleEndian(b[1..]) << 8)
  {
  }

  /** The descending xor ladder over 1 byte(s) equals their little-endian value (bitwise). */
  lemma LadderBits1(b0: bv8)
    ensures 0 ^ (b0 as bv64)
         == (b0 as bv64) | (0 << 8)
  {
  }

  lemma Ladder1(s: seq<bv8>)
    requires |s| == 1
    ensures 0 ^ (s[0] as bv64) == LittleEndian(s)
  {
    LittleEndianStep(s[0..]);
    assert s[0..][1..] == s[1..];
    assert s[0..] == s;
    LadderBits1(s[0]);
  }

  /** The descending xor ladder over 2 byte(s) equals their little-endian value (bitwise). */
  lemma LadderBits2(b0: bv8, b1: bv8)
    ensures (0 ^ ((b1 as bv64) << 8)) ^ (b0 as bv64)
         == (b0 as bv64) | (((b1 as bv64) | (0 << 8)) << 8)
  {
  }

  lemma Ladder2(s: seq<bv8>)
    requires |s| == 2
    ensures (0 ^ ((s[1] as bv64) << 8)) ^ (s[0] as bv64) == LittleEndian(s)
  {
    LittleEndianStep(s[0..]);
    assert s[0..][1..] == s[1..];
    LittleEndianStep(s[1..]);
    assert s[1..][1..] == s[2..];
    assert s[0..] == s;
    LadderBits2(s[0], s[1]);
  }

  /** The descending xor ladder over 3 byte(s) equals their little-endian value (bitwise). */
  lemma LadderBits3(b0: bv8, b1: bv8, b2: bv8)
    ensures ((0 ^ ((b2 as bv64) << 16)) ^ ((b1 as bv64) << 8)) ^ (b0 as bv64)
         == (b0 as bv64) | (((b1 as bv64) | (((b2 as bv64) | (0 << 8)) << 8)) << 8)
  {
  }

  lemma Ladder3(s: seq<bv8>)
    requires |s| == 3
    ensures ((0 ^ ((s[2] as bv64) << 16)) ^ ((s[1] as bv64) << 8)) ^ (s[0] as bv64) == LittleEndian(s)
  {
    LittleEndianStep(s[0..]);
    assert s[0..][1..] == s[1..];
    LittleEndianStep(s[1..]);
    assert s[1..][1..] == s[2..];
    LittleEndianStep(s[2..]);
    assert s[2..][1..] == s[3..];
    assert s[0..] == s;
    LadderBits3(s[0], s[1], s[2]);
  }

  /** The descending xor ladder over 4 byte(s) equals their little-endian value (bitwise). */
  lemma LadderBits4(b0: bv8, b1: bv8, b2: bv8, b3: bv8)
    ensures (((0 ^ ((b3 as bv64) << 24)) ^ ((b2 as bv64) << 16)) ^ ((b1 as bv64) << 8)) ^ (b0 as bv64)
         == (b0 as bv64) | (((b1 as bv64) | (((b2 as bv64) | (((b3 as bv64) | (0 << 8)) << 8)) << 8)) << 8)
  {
  }

  lemma Ladder4(s: seq<bv8>)
    requires |s| == 4
    ensures (((0 ^ ((s[3] as bv64) << 24)) ^ ((s[2] as bv64) << 16)) ^ ((s[1] as bv64) << 8)) ^ (s[0] as bv64) == LittleEndian(s)
  {
    LittleEndianStep(s[0..]);
    assert s[0..][1..] == s[1..];
    LittleEndianStep(s[1..]);
    assert s[1..][1..] == s[2..];
    LittleEndianStep(s[2..]);
    assert s[2..][1..] == s[3..];
    LittleEndianStep(s[3..]);
    assert s[3..][1..] == s[4..];
    assert s[0..] == s;
    LadderBits4(s[0], s[1], s[2], s[3]);
  }

  /** The descending xor ladder over 5 byte(s) equals their little-endian value (bitwise). */
  lemma LadderBits5(b0: bv8, b1: bv8, b2: bv8, b3: bv8, b4: bv8)
    ensures ((((0 ^ ((b4 as bv64) << 32)) ^ ((b3 as bv64) << 24)) ^ ((b2 as bv64) << 16)) ^ ((b1 as bv64) << 8)) ^ (b0 as bv64)
         == (b0 as bv64) | (((b1 as bv64) | (((b2 as bv64) | (((b3 as bv64) | (((b4 as bv64) | (0 << 8)) << 8)) << 8)) << 8)) << 8)
  {
  }

  lemma Ladder5(s: seq<bv8>)
    requires |s| == 5
    ensures ((((0 ^ ((s[4] as bv64) << 32)) ^ ((s[3] as bv64) << 24)) ^ ((s[2] as bv64) << 16)) ^ ((s[1] as bv64) << 8)) ^ (s[0] as bv64) == LittleEndian(s)
  {
    LittleEndianStep(s[0..]);
    assert s[0..][1..] == s[1..];
    LittleEndianStep(s[1..]);
    assert s[1..][1..] == s[2..];
    LittleEndianStep(s[2..]);
    assert s[2..][1..] == s[3..];
    LittleEndianStep(s[3..]);
    assert s[3..][1..] == s[4..];
    LittleEndianStep(s[4..]);
    assert s[4..][1..] == s[5..];
    assert s[0..] == s;
    LadderBits5(s[0], s[1], s[2], s[3], s[4]);
  }

  /** The descending xor ladder over 6 byte(s) equals their little-endian value (bitwise). */
  lemma LadderBits6(b0: bv8, b1: bv8, b2: bv8, b3: bv8, b4: bv8, b5: bv8)
    ensures (((((0 ^ ((b5 as bv64) << 40)) ^ ((b4 as bv64) << 32)) ^ ((b3 as bv64) << 24)) ^ ((b2 as bv64) << 16)) ^ ((b1 as bv64) << 8)) ^ (b0 as bv64)
         == (b0 as bv64) | (((b1 as bv64) | (((b2 as bv64) | (((b3 as bv64) | (((b4 as bv64) | (((b5 as bv64) | (0 << 8)) << 8)) << 8)) << 8)) << 8)) << 8)
  {
  }

  lemma Ladder6(s: seq<bv8>)
    requires |s| == 6
    ensures (((((0 ^ ((s[5] as bv64) << 40)) ^ ((s[4] as bv64) << 32)) ^ ((s[3] as bv64) << 24)) ^ ((s[2] as bv64) << 16)) ^ ((s[1] as bv64) << 8)) ^ (s[0] as bv64) == LittleEndian(s)
  {
    LittleEndianStep(s[0..]);
    assert s[0..][1..] == s[1..];
    LittleEndianStep(s[1..]);
    assert s[1..][1..] == s[2..];
    LittleEndianStep(s[2..]);
    assert s[2..][1..] == s[3..];
    LittleEndianStep(s[3..]);
    assert s[3..][1..] == s[4..];
    LittleEndianStep(s[4..]);
    assert s[4..][1..] == s[5..];
    LittleEndianStep(s[5..]);
    assert s[5..][1..] == s[6..];
    assert s[0..] == s;
    LadderBits6(s[0], s[1], s[2], s[3], s[4], s[5]);
  }

  /** The descending xor ladder over 7 byte(s) equals their little-endian value (bitwise). */
  lemma LadderBits7(b0: bv8, b1: bv8, b2: bv8, b3: bv8, b4: bv8, b5: bv8, b6: bv8)
    ensures ((((((0 ^ ((b6 as bv64) << 48)) ^ ((b5 as bv64) << 40)) ^ ((b4 as bv64) << 32)) ^ ((b3 as bv64) << 24)) ^ ((b2 as bv64) << 16)) ^ ((b1 as bv64) << 8)) ^ (b0 as bv64)
         == (b0 as bv64) | (((b1 as bv64) | (((b2 as bv64) | (((b3 as bv64) | (((b4 as bv64) | (((b5 as bv64) | (((b6 as bv64) | (0 << 8)) << 8)) << 8)) << 8)) << 8)) << 8)) << 8)
  {
  }

  lemma Ladder7(s: seq<bv8>)
    requires |s| == 7
    ensures ((((((0 ^ ((s[6] as bv64) << 48)) ^ ((s[5] as bv64) << 40)) ^ ((s[4] as bv64) << 32)) ^ ((s[3] as bv64) << 24)) ^ ((s[2] as bv64) << 16)) ^ ((s[1] as bv64) << 8)) ^ (s[0] as bv64) == LittleEndian(s)
  {
    LittleEndianStep(s[0..]);
    assert s[0..][1..] == s[1..];
    LittleEndianStep(s[1..]);
    assert s[1..][1..] == s[2..];
    LittleEndianStep(s[2..]);
    assert s[2..][1..] == s[3..];
    LittleEndianStep(s[3..]);
    assert s[3..][1..] == s[4..];
    LittleEndianStep(s[4..]);
    assert s[4..][1..] == s[5..];
    LittleEndianStep(s[5..]);
    assert s[5..][1..] == s[6..];
    LittleEndianStep(s[6..]);
    assert s[6..][1..] == s[7..];
    assert s[0..] == s;
    LadderBits7(s[0], s[1], s[2], s[3], s[4], s[5], s[6]);
  }

  /** The tail's `k1` is the little-endian value of its first min(rem, 8) bytes. */
  lemma TailK1IsLittleEndian(chunk: seq<bv8>)
    requires 0 < |chunk| < 16
    ensures |chunk| >= 8 ==> TailK1(chunk) == LittleEndian(chunk[..8])
    ensures |chunk| < 8 ==> TailK1(chunk) == LittleEndian(chunk)
  {
    if |chunk| >= 8 {
      assert chunk[0..8] == chunk[..8];
    } else if |chunk| == 1 {
      Ladder1(chunk);
    } else if |chunk| == 2 {
      Ladder2(chunk);
    } else if |chunk| == 3 {
      Ladder3(chunk);
    } else if |chunk| == 4 {
      Ladder4(chunk);
    } else if |chunk| == 5 {
      Ladder5(chunk);
    } else if |chunk| == 6 {
      Ladder6(chunk);
    } else if |chunk| == 7 {
      Ladder7(chunk);
    }
  }

  /** The tail's `k2` is the little-endian value of bytes 8 up to the end of the chunk. */
  lemma TailK2IsLittleEndian(chunk: seq<bv8>)
    requires 9 <= |chunk| < 16
    ensures TailK2(chunk) == LittleEndian(chunk[8..])
  {
    var s := chunk[8..];
    if |chunk| == 9 {
      assert s[0] == chunk[8];
      Ladder1(s);
    } else if |chunk| == 10 {
      assert s[0] == chunk[8] && s[1] == chunk[9];
      Ladder2(s);
    } else if |chunk| == 11 {
      assert s[0] == chunk[8] && s[1] == chunk[9] && s[2] == chunk[10];
      Ladder3(s);
    } else if |chunk| == 12 {
      assert s[0] == chunk[8] && s[1] == chunk[9] && s[2] == chunk[10] && s[3] == chunk[11];
      Ladder4(s);
    } else if |chunk| == 13 {
      assert s[0] == chunk[8] && s[1] == chunk[9] && s[2] == chunk[10] && s[3] == chunk[11] && s[4] == chunk[12];
      Ladder5(s);
    } else if |chunk| == 14 {
      assert s[0] == chunk[8] && s[1] == chunk[9] && s[2] == chunk[10] && s[3] == chunk[11] && s[4] == chunk[12] && s[5] == chunk[13];
      Ladder6(s);
    } else if |chunk| == 15 {
      assert s[0] == chunk[8] && s[1] == chunk[9] && s[2] == chunk[10] && s[3] == chunk[11] && s[4] == chunk[12] && s[5] == chunk[13] && s[6] == chunk[14];
      Ladder7(s);
    }
  }

  /** From a block boundary with only whole blocks left, the loop ends without finalising. */
  lemma {:induction false} WholeBlocksFallThrough(data: seq<bv8>, pos: nat, h: Lanes, numBytes: nat)
    requires pos <= |data| && (|data| - pos) % 16 == 0
    ensures ChunkLoop(data, pos, h, numBytes) == FellThrough
    decreases |data| - pos
  {
    if pos < |data| {
      WholeBlocksFallThrough(data, pos + 16, FoldAt(h, data, pos), numBytes + 16);
    }
  }

  /** The empty input, and every input whose length is a multiple of 16, hashes to 1 for any seed. */
  lemma MultipleOf16IsOne(data: seq<bv8>, seed: bv32)
    requires |data| % 16 == 0
    ensures Hash(data, seed) == 1
  {
    WholeBlocksFallThrough(data, 0, InitLanes(seed), 0);
  }

  /**
    From a block boundary `pos`, with the count equal to `pos`, the loop folds the same
    blocks as the reference, mixes the same tail and returns the total length.
   */
  lemma {:induction false} ChunkLoopFollowsReference(data: seq<bv8>, pos: nat, h: Lanes)
    requires pos <= |data| && pos % 16 == 0 && |data| % 16 != 0
    ensures ChunkLoop(data, pos, h, pos)
         == Returned(MixTail(BlocksFrom(data, pos, h), data[|data| - |data| % 16..]), |data|)
    decreases |data| - pos
  {
    if |data| - pos >= 16 {
      ChunkLoopFollowsReference(data, pos + 16, FoldAt(h, data, pos));
    } else {
      assert |data| - pos == |data| % 16;
    }
  }

  /**
    Whenever the input has a short final chunk, the hash is Appleby's MurmurHash3_x64_128:
    lanes seeded with the widened seed, every full block folded, the tail mixed, and the
    total input length xored into both lanes before the avalanche.
   */
  lemma HashAgreesWithReference(data: seq<bv8>, seed: bv32)
    requires |data| % 16 != 0
    ensures Hash(data, seed) == Reference(data, seed)
  {
    ChunkLoopFollowsReference(data, 0, InitLanes(seed));
  }

  /** The fall-through is a real deviation: on the empty input the reference algorithm gives 0, not 1. */
  lemma EmptyInputDeviates()
    ensures Hash([], 0) == 1
    ensures Reference([], 0) == 0
  {
  }

  // ---------------------------------------------------------------- hash_anything

  /** A Rust `i32`, the key type the map is modelled with. */
  type I32 = x: int | -0x8000_0000 <= x < 0x8000_0000

  /** bincode's encoding of an `i32`: the four little-endian bytes of its two's complement. */
  function Serialize(k: I32): (r: seq<bv8>)
    ensures |r| == 4
  {
    var w := (if k < 0 then k + 0x1_0000_0000 else k) as bv32;
    [(w & 0xff) as bv8, ((w >> 8) & 0xff) as bv8, ((w >> 16) & 0xff) as bv8, (w >> 24) as bv8]
  }

  /** `hash_anything`: serialise, then hash. bincode cannot fail on an `i32`, so the `expect` never fires. */
  function HashAnything(k: I32, seed: bv32): bv128 {
    Hash(Serialize(k), seed)
  }

  /** A key's four bytes are never a multiple of 16, so keys get Appleby's hash, never the `Ok(1)` fall-through. */
  lemma HashAnythingIsReference(k: I32, seed: bv32)
    ensures HashAnything(k, seed) == Reference(Serialize(k), seed)
  {
    HashAgreesWithReference(Serialize(k), seed);
  }
}
