/** The functions and constants of FIPS 180-4 behind src/strict_privacy.c's SHA-256, bit by bit and by
    where they come from. */
module Sha256Bits {
  import opened Sha256

  // ----- Section 4.1.2: the functions, bit by bit -----

  /** x chooses: y's bits where x has ones, z's where it has zeros. */
  lemma ChBits(x: bv32, y: bv32, z: bv32)
    ensures Ch(x, y, z) & x == y & x && Ch(x, y, z) & !x == z & !x
  {
  }

  /** Where two of them agree, their bit; the order of the three does not matter. */
  lemma MajBits(x: bv32, y: bv32, z: bv32)
    ensures Maj(x, y, z) & !(x ^ y) == x & !(x ^ y) && Maj(x, y, z) == Maj(z, x, y)
  {
  }

  /** Bit i of x rotated is bit i + n of x, counted round. */
  lemma RotrBit(x: bv32, n: bv32, i: bv32)
    requires 0 < n < 32 && i < 32
    ensures (Rotr(x, n) >> i) & 1 == (x >> ((i + n) % 32)) & 1
  {
    hide Rotr;
    CountRound(i, n);
    if i + n < 32 { RotrDown(x, n, i); } else { RotrRound(x, n, i); }
  }

  lemma CountRound(i: bv32, n: bv32)
    requires n < 32 && i < 32
    ensures (i + n) % 32 == if i + n < 32 then i + n else i + n - 32
  {
  }

  lemma RotrDown(x: bv32, n: bv32, i: bv32)
    requires 0 < n < 32 && i < 32 && i + n < 32
    ensures (Rotr(x, n) >> i) & 1 == (x >> (i + n)) & 1
  {
    MovedDown(x, n, i);
    NotThere(x, n, i);
    OneOfTwo(x >> n, x << (32 - n), i);
  }

  lemma MovedDown(x: bv32, n: bv32, i: bv32)
    requires 0 < n < 32 && i < 32 && i + n < 32
    ensures ((x >> n) >> i) & 1 == (x >> (i + n)) & 1
  {
  }

  lemma NotThere(x: bv32, n: bv32, i: bv32)
    requires 0 < n < 32 && i < 32 && i + n < 32
    ensures ((x << (32 - n)) >> i) & 1 == 0
  {
  }

  lemma OneOfTwo(x: bv32, y: bv32, i: bv32)
    requires i < 32 && (y >> i) & 1 == 0
    ensures ((x | y) >> i) & 1 == (x >> i) & 1
  {
  }

  lemma RotrRound(x: bv32, n: bv32, i: bv32)
    requires 0 < n < 32 && i < 32 && i + n >= 32
    ensures (Rotr(x, n) >> i) & 1 == (x >> (i + n - 32)) & 1
  {
  }

  lemma XorBit(x: bv32, y: bv32, z: bv32, i: bv32)
    requires i < 32
    ensures ((x ^ y ^ z) >> i) & 1 == ((x >> i) & 1) ^ ((y >> i) & 1) ^ ((z >> i) & 1)
  {
  }

  lemma Big0Bit(x: bv32, i: bv32)
    requires i < 32
    ensures (Big0(x) >> i) & 1 ==
            ((x >> ((i + 2) % 32)) & 1) ^ ((x >> ((i + 13) % 32)) & 1) ^ ((x >> ((i + 22) % 32)) & 1)
  {
    hide Rotr;
    RotrBit(x, 2, i);
    RotrBit(x, 13, i);
    RotrBit(x, 22, i);
    XorBit(Rotr(x, 2), Rotr(x, 13), Rotr(x, 22), i);
  }

  lemma Big1Bit(x: bv32, i: bv32)
    requires i < 32
    ensures (Big1(x) >> i) & 1 ==
            ((x >> ((i + 6) % 32)) & 1) ^ ((x >> ((i + 11) % 32)) & 1) ^ ((x >> ((i + 25) % 32)) & 1)
  {
    hide Rotr;
    RotrBit(x, 6, i);
    RotrBit(x, 11, i);
    RotrBit(x, 25, i);
    XorBit(Rotr(x, 6), Rotr(x, 11), Rotr(x, 25), i);
  }

  /** Bits shifted out are not rotated back in. */
  lemma Small0Bit(x: bv32, i: bv32)
    requires i < 32
    ensures (Small0(x) >> i) & 1 ==
            ((x >> ((i + 7) % 32)) & 1) ^ ((x >> ((i + 18) % 32)) & 1)
            ^ (if i + 3 < 32 then (x >> (i + 3)) & 1 else 0)
  {
    hide Rotr;
    RotrBit(x, 7, i);
    RotrBit(x, 18, i);
    XorBit(Rotr(x, 7), Rotr(x, 18), x >> 3, i);
  }

  lemma Small1Bit(x: bv32, i: bv32)
    requires i < 32
    ensures (Small1(x) >> i) & 1 ==
            ((x >> ((i + 17) % 32)) & 1) ^ ((x >> ((i + 19) % 32)) & 1)
            ^ (if i + 10 < 32 then (x >> (i + 10)) & 1 else 0)
  {
    hide Rotr;
    RotrBit(x, 17, i);
    RotrBit(x, 19, i);
    XorBit(Rotr(x, 17), Rotr(x, 19), x >> 10, i);
  }

  // ----- Words and bytes: base 256, the most significant first -----

  lemma JoinIsNumber(v0: bv32, v1: bv32, v2: bv32, v3: bv32)
    requires v0 <= 0xff && v1 <= 0xff && v2 <= 0xff && v3 <= 0xff
    ensures Join(v0, v1, v2, v3) == ((v0 * 256 + v1) * 256 + v2) * 256 + v3
    ensures var x := Join(v0, v1, v2, v3);
            Octet(x, 24) == v0 && Octet(x, 16) == v1 && Octet(x, 8) == v2 && Octet(x, 0) == v3
  {
  }

  lemma OctetsJoin(x: bv32)
    ensures Join(Octet(x, 24), Octet(x, 16), Octet(x, 8), Octet(x, 0)) == x
  {
  }

  /** The number the bytes stand for. */
  ghost function Number(b: seq<byte>): nat { if b == [] then 0 else Number(b[..|b| - 1]) * 256 + b[|b| - 1] }

  ghost function Pow256(n: nat): nat { if n == 0 then 1 else 256 * Pow256(n - 1) }

  /** The length field holds the bit length, most significant byte first. */
  lemma {:induction false} BigEndianIsNumber(x: nat, n: nat)
    requires x < Pow256(n)
    ensures Number(BigEndian(x, n)) == x
  {
    if n > 0 {
      var front := BigEndian(x / 256, n - 1);
      assert x / 256 < Pow256(n - 1) by { DivideBound(x, Pow256(n - 1)); }
      BigEndianIsNumber(x / 256, n - 1);
      assert (front + [x % 256])[..n - 1] == front;
    }
  }

  lemma DivideBound(x: nat, p: nat)
    requires x < 256 * p
    ensures x / 256 < p
  {
  }
}
