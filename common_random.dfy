/**
  The pivot random source of quicksorts/internal/quicksorts-common.h: a
  64-bit linear congruential generator whose output is the byte-reversed
  previous seed.  The source guards the global seed with a ticket spinlock;
  here the seed is a field of one single-threaded object.
*/
module CommonRandom {

  /** LCG_A, the multiplier (Steele and Vigna, 2021). */
  const LcgA: bv64 := 0xf1357aea2e62a9c5
  /** LCG_C, the increment; it must be odd. */
  const LcgC: bv64 := 1

  /** BSWAP64, the portable fallback: byte k moves to byte 7 - k. */
  function Bswap64(x: bv64): bv64
  {
    ((x & 0x00000000000000FF) << 56) |
    ((x & 0x000000000000FF00) << 40) |
    ((x & 0x0000000000FF0000) << 24) |
    ((x & 0x00000000FF000000) << 8) |
    ((x & 0x000000FF00000000) >> 8) |
    ((x & 0x0000FF0000000000) >> 24) |
    ((x & 0x00FF000000000000) >> 40) |
    ((x & 0xFF00000000000000) >> 56)
  }

  /** The eight bytes of `x`, least significant first. */
  function Bytes(x: bv64): (b: seq<bv8>)
    ensures |b| == 8
  {
    [(x & 0xFF) as bv8, ((x >> 8) & 0xFF) as bv8,
     ((x >> 16) & 0xFF) as bv8, ((x >> 24) & 0xFF) as bv8,
     ((x >> 32) & 0xFF) as bv8, ((x >> 40) & 0xFF) as bv8,
     ((x >> 48) & 0xFF) as bv8, ((x >> 56) & 0xFF) as bv8]
  }

  /** A value is determined by its eight bytes. */
  lemma BytesDetermine(x: bv64, y: bv64)
    requires Bytes(x) == Bytes(y)
    ensures x == y
  {
    var b, c := Bytes(x), Bytes(y);
    assert b[0] == c[0] && b[1] == c[1] && b[2] == c[2] && b[3] == c[3];
    assert b[4] == c[4] && b[5] == c[5] && b[6] == c[6] && b[7] == c[7];
  }

  /** Byte k of the byte-reversed value is byte 7 - k of the original. */
  lemma BswapBytes(x: bv64)
    ensures Bytes(Bswap64(x)) == [Bytes(x)[7], Bytes(x)[6], Bytes(x)[5], Bytes(x)[4],
                                  Bytes(x)[3], Bytes(x)[2], Bytes(x)[1], Bytes(x)[0]]
  {
  }

  /** Reversing the bytes twice gives back the original value. */
  lemma BswapInvolution(x: bv64)
    ensures Bswap64(Bswap64(x)) == x
  {
    BswapBytes(x);
    BswapBytes(Bswap64(x));
    BytesDetermine(Bswap64(Bswap64(x)), x);
  }

  /**
    One LCG step, modulo 2^64.  Its weakness, which the byte reversal is
    there to hide: the least significant bit alternates between 0 and 1
    from one step to the next.
  */
  function LcgNext(seed: bv64): (next: bv64)
    ensures next & 1 == (seed & 1) ^ 1
  {
    LcgA * seed + LcgC
  }

  /** The generator state: the seed that random_uint64 reads and replaces. */
  class RandomSource {
    var seed: bv64

    constructor (initialSeed: bv64)
      ensures seed == initialSeed
    {
      seed := initialSeed;
    }

    /** random_uint64: advance the seed, return the old one byte-reversed. */
    method RandomUint64() returns (r: bv64)
      modifies this
      ensures seed == LcgNext(old(seed))
      ensures r == Bswap64(old(seed))
    {
      var oldSeed := seed;
      seed := LcgNext(oldSeed);
      r := Bswap64(oldSeed);
    }

    /** random_size_t_below: a value in `[0, n)` drawn from the next output. */
    method RandomSizeTBelow(n: nat) returns (r: nat)
      requires 0 < n < 0x1_0000_0000_0000_0000
      modifies this
      ensures r < n
      ensures r == (Bswap64(old(seed)) as int) % n
      ensures seed == LcgNext(old(seed))
    {
      var v := RandomUint64();
      r := (v as int) % n;
    }
  }
}
