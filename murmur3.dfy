/** MurmurHash3, x86 32-bit variant (Austin Appleby's public-domain algorithm),
    as compiled into the `_murmur3` extension: `murmur3_32(key, len, seed)`.

    All arithmetic is on `uint32_t`, modelled as `bv32`, so it wraps modulo
    2^32. Blocks are read little-endian, as on x86. The routine's constants
    appear as literals: c1 = 0xcc9e2d51, c2 = 0x1b873593, r1 = 15, r2 = 13,
    m = 5, n = 0xe6546b64, and the fmix32 multipliers 0x85ebca6b and
    0xc2b2ae35.

    `Hash` states the routine as a function of its inputs; `Murmur3_32` is the
    routine itself, step by step, proved equal to it. */
module Murmur3 {

  /** The seed the Python entry point passes when the caller gives none. */
  const DefaultSeed: bv32 := 0

  /** `x * y` on `uint32_t`. */
  function Mul(x: bv32, y: bv32): bv32 {
    x * y
  }

  /** `(x << r) | (x >> (32 - r))`. */
  function Rotl(x: bv32, r: bv32): bv32
    requires 0 < r < 32
  {
    (x << r) | (x >> (32 - r))
  }

  /** `x ^ (x >> s)`, the shape of the three shift steps of fmix32. */
  function XorShr(x: bv32, s: bv32): bv32
    requires s < 32
  {
    x ^ (x >> s)
  }

  /** A key word is scrambled before it meets the state: times c1, rotated
      left by r1, times c2. */
  function ScrambleK(k: bv32): bv32 {
    Mul(Rotl(Mul(k, 0xcc9e2d51), 15), 0x1b873593)
  }

  /** A scrambled word is folded into the state: xor, rotate left by r2,
      times m, plus n. */
  function Round(h: bv32, k: bv32): bv32 {
    Mul(Rotl(h ^ k, 13), 5) + 0xe6546b64
  }

  /** Block `i` of the key, the four bytes from `4 * i` read as a
      little-endian `uint32_t`. */
  function Block(key: seq<bv8>, i: nat): bv32
    requires 4 * i + 4 <= |key|
  {
    (key[4 * i] as bv32) | ((key[4 * i + 1] as bv32) << 8)
    | ((key[4 * i + 2] as bv32) << 16) | ((key[4 * i + 3] as bv32) << 24)
  }

  /** The state after the first `n` blocks have been folded into `seed`. */
  function Body(key: seq<bv8>, seed: bv32, n: nat): bv32
    requires 4 * n <= |key|
  {
    if n == 0 then seed else Round(Body(key, seed, n - 1), ScrambleK(Block(key, n - 1)))
  }

  /** `k1`: the 0 to 3 bytes after the last whole block, little-endian. */
  function TailWord(key: seq<bv8>): bv32 {
    var t := |key| / 4 * 4;
    var r := |key| % 4;
    (if r == 3 then (key[t + 2] as bv32) << 16 else 0)
    ^ (if r >= 2 then (key[t + 1] as bv32) << 8 else 0)
    ^ (if r >= 1 then key[t] as bv32 else 0)
  }

  /** The tail word is scrambled and folded in only when `rest`, the length
      modulo 4, is not zero. */
  function TailMix(h: bv32, k: bv32, rest: nat): bv32 {
    if rest != 0 then h ^ ScrambleK(k) else h
  }

  /** The length as the C code XORs it into the state: a `Py_ssize_t`
      converted to `uint32_t`, so truncated modulo 2^32. */
  function LenWord(len: nat): bv32 {
    (len % 0x1_0000_0000) as bv32
  }

  /** fmix32, the final avalanche. */
  function Fmix32(h: bv32): bv32 {
    XorShr(Mul(XorShr(Mul(XorShr(h, 16), 0x85ebca6b), 13), 0xc2b2ae35), 16)
  }

  /** Finalisation: the length is folded in, then fmix32 is applied. */
  function Finish(h: bv32, len: nat): bv32 {
    Fmix32(h ^ LenWord(len))
  }

  /** `murmur3_32(key, len(key), seed)` as a function of the key bytes and
      the seed: blocks, then tail, then finalisation. */
  function Hash(key: seq<bv8>, seed: bv32): bv32 {
    Finish(TailMix(Body(key, seed, |key| / 4), TailWord(key), |key| % 4), |key|)
  }

  /** The C routine. Its three phases (block loop, tail switch, finalisation)
      are the three helper methods below. */
  method Murmur3_32(key: seq<bv8>, seed: bv32) returns (hash: bv32)
    ensures hash == Hash(key, seed)
  {
    hash := MixBlocks(key, seed);
    var k1 := ReadTail(key);
    hash := MixTail(hash, k1, |key| % 4);
    hash := Finalize(hash, |key|);
  }

  /** The block loop: `len / 4` rounds, starting from the seed. */
  method MixBlocks(key: seq<bv8>, seed: bv32) returns (hash: bv32)
    ensures hash == Body(key, seed, |key| / 4)
  {
    hash := seed;
    var nblocks := |key| / 4;
    var i := 0;
    while i < nblocks
      invariant 0 <= i <= nblocks
      invariant hash == Body(key, seed, i)
    {
      var k := Block(key, i);
      k := ScrambleK(k);
      hash := Round(hash, k);
      i := i + 1;
    }
  }

  /** The fall-through switch on `len & 3` that assembles `k1`. */
  method ReadTail(key: seq<bv8>) returns (k1: bv32)
    ensures k1 == TailWord(key)
  {
    var tail := |key| / 4 * 4;
    k1 := 0;
    var rest := |key| % 4;
    if rest == 3 {
      k1 := k1 ^ ((key[tail + 2] as bv32) << 16);
    }
    if rest >= 2 {
      k1 := k1 ^ ((key[tail + 1] as bv32) << 8);
    }
    if rest >= 1 {
      k1 := k1 ^ (key[tail] as bv32);
    }
  }

  /** The body of `case 1`, reached from every non-zero case. */
  method MixTail(h0: bv32, k: bv32, rest: nat) returns (hash: bv32)
    ensures hash == TailMix(h0, k, rest)
  {
    if rest != 0 {
      hash := h0 ^ ScrambleK(k);
    } else {
      hash := h0;
    }
  }

  /** `hash ^= len` followed by the five in-place steps of fmix32. */
  method Finalize(h0: bv32, len: nat) returns (hash: bv32)
    ensures hash == Finish(h0, len)
  {
    hash := h0 ^ LenWord(len);
    hash := XorShr(hash, 16);
    hash := Mul(hash, 0x85ebca6b);
    hash := XorShr(hash, 13);
    hash := Mul(hash, 0xc2b2ae35);
    hash := XorShr(hash, 16);
  }

  /** The empty key under the default seed hashes to 0: no blocks, no tail,
      a zero length, and fmix32(0) = 0. */
  lemma EmptyKeyDefaultSeed()
    ensures Hash([], DefaultSeed) == 0
  {
    assert LenWord(0) == 0 by {
      assert 0 % 0x1_0000_0000 == 0;
    }
    assert Fmix32(0) == 0;
  }

  /** The UTF-8 bytes of the string "6666". */
  const Key6666: seq<bv8> := [0x36, 0x36, 0x36, 0x36]

  lemma Block6666()
    ensures Block(Key6666, 0) == 0x36363636
  {
  }

  lemma Scramble6666()
    ensures ScrambleK(0x36363636) == 0xe6f2d793
  {
  }

  lemma LenWord4()
    ensures LenWord(4) == 4
  {
    assert 4 % 0x1_0000_0000 == 4;
  }

  /** "6666" under the default seed hashes to 1361238019. */
  lemma Vector6666Seed0()
    ensures Hash(Key6666, DefaultSeed) == 1361238019
  {
    Block6666();
    Scramble6666();
    LenWord4();
    assert Body(Key6666, 0, 1) == Round(0, 0xe6f2d793) == 0xad10dbba;
    assert Fmix32(0xad10dbbe) == 1361238019;
  }

  /** "6666" under seed 10 hashes to 2981722772. */
  lemma Vector6666Seed10()
    ensures Hash(Key6666, 10) == 2981722772
  {
    Block6666();
    Scramble6666();
    LenWord4();
    assert Body(Key6666, 10, 1) == Round(10, 0xe6f2d793) == 0xad149bba;
    assert Fmix32(0xad149bbe) == 2981722772;
  }
}
