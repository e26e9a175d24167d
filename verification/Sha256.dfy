/** SHA-256 as src/strict_privacy.c computes it, against FIPS 180-4: the message is padded as in
    section 5.1.1 and its blocks are folded as in section 6.2.2. */
module Sha256 {
  type byte = b: int | 0 <= b < 256

  // ----- Section 5.1.1: padding -----

  predicate Aligned(length: nat, zeros: nat) { (length + 1 + zeros) % 64 == 56 }

  /** The smallest number of zero bytes that brings the 0x80 byte and the 8 length bytes to the end
      of a block. */
  function ZeroCount(length: nat): (z: nat)
    ensures Aligned(length, z)
    ensures forall k: nat :: k < z ==> !Aligned(length, k)
  {
    (119 - length % 64) % 64
  }

  /** The n low-order bytes of x, most significant first. */
  function BigEndian(x: nat, n: nat): (r: seq<byte>)
    ensures |r| == n
  {
    if n == 0 then [] else BigEndian(x / 256, n - 1) + [x % 256]
  }

  function Zeros(n: nat): (r: seq<byte>)
    ensures |r| == n
  {
    seq(n, _ => 0)
  }

  function Padded(m: seq<byte>): seq<byte> { m + [0x80] + Zeros(ZeroCount(|m|)) + BigEndian(8 * |m|, 8) }

  // ----- Section 6.2.2: the hash computation -----

  /** The constants, eight rows of eight, one for each round. */
  function ConstantRow(i: nat): (row: seq<bv32>)
    requires i < 8
    ensures |row| == 8
  {
    match i
    case 0 => [0x428a2f98, 0x71374491, 0xb5c0fbcf, 0xe9b5dba5, 0x3956c25b, 0x59f111f1, 0x923f82a4, 0xab1c5ed5]
    case 1 => [0xd807aa98, 0x12835b01, 0x243185be, 0x550c7dc3, 0x72be5d74, 0x80deb1fe, 0x9bdc06a7, 0xc19bf174]
    case 2 => [0xe49b69c1, 0xefbe4786, 0x0fc19dc6, 0x240ca1cc, 0x2de92c6f, 0x4a7484aa, 0x5cb0a9dc, 0x76f988da]
    case 3 => [0x983e5152, 0xa831c66d, 0xb00327c8, 0xbf597fc7, 0xc6e00bf3, 0xd5a79147, 0x06ca6351, 0x14292967]
    case 4 => [0x27b70a85, 0x2e1b2138, 0x4d2c6dfc, 0x53380d13, 0x650a7354, 0x766a0abb, 0x81c2c92e, 0x92722c85]
    case 5 => [0xa2bfe8a1, 0xa81a664b, 0xc24b8b70, 0xc76c51a3, 0xd192e819, 0xd6990624, 0xf40e3585, 0x106aa070]
    case 6 => [0x19a4c116, 0x1e376c08, 0x2748774c, 0x34b0bcb5, 0x391c0cb3, 0x4ed8aa4a, 0x5b9cca4f, 0x682e6ff3]
    case 7 => [0x748f82ee, 0x78a5636f, 0x84c87814, 0x8cc70208, 0x90befffa, 0xa4506ceb, 0xbef9a3f7, 0xc67178f2]
  }

  function RoundConstant(t: nat): bv32
    requires t < 64
  {
    ConstantRow(t / 8)[t % 8]
  }

  const H0: seq<bv32> :=
    [0x6a09e667, 0xbb67ae85, 0x3c6ef372, 0xa54ff53a, 0x510e527f, 0x9b05688c, 0x1f83d9ab, 0x5be0cd19]

  function Rotr(x: bv32, n: bv32): bv32
    requires 0 < n < 32
  {
    (x >> n) | (x << (32 - n))
  }

  function Ch(x: bv32, y: bv32, z: bv32): bv32 { (x & y) ^ (!x & z) }
  function Maj(x: bv32, y: bv32, z: bv32): bv32 { (x & y) ^ (x & z) ^ (y & z) }
  function Big0(x: bv32): bv32 { Rotr(x, 2) ^ Rotr(x, 13) ^ Rotr(x, 22) }
  function Big1(x: bv32): bv32 { Rotr(x, 6) ^ Rotr(x, 11) ^ Rotr(x, 25) }
  function Small0(x: bv32): bv32 { Rotr(x, 7) ^ Rotr(x, 18) ^ (x >> 3) }
  function Small1(x: bv32): bv32 { Rotr(x, 17) ^ Rotr(x, 19) ^ (x >> 10) }

  function Join(v0: bv32, v1: bv32, v2: bv32, v3: bv32): bv32 { (v0 << 24) | (v1 << 16) | (v2 << 8) | v3 }

  function Word(b0: byte, b1: byte, b2: byte, b3: byte): bv32 {
    Join(b0 as bv32, b1 as bv32, b2 as bv32, b3 as bv32)
  }

  /** The message schedule. */
  function Schedule(block: seq<byte>, t: nat): bv32
    requires |block| == 64 && t < 64
    decreases t, |block|
  {
    if t < 16 then Word(block[4 * t], block[4 * t + 1], block[4 * t + 2], block[4 * t + 3])
    else Extend(Schedule(block, t - 2), Schedule(block, t - 7), Schedule(block, t - 15), Schedule(block, t - 16))
  }

  function Extend(w2: bv32, w7: bv32, w15: bv32, w16: bv32): bv32 { Small1(w2) + w7 + Small0(w15) + w16 }

  datatype Vars = Vars(a: bv32, b: bv32, c: bv32, d: bv32, e: bv32, f: bv32, g: bv32, h: bv32)

  function T1(v: Vars, k: bv32, w: bv32): bv32 { v.h + Big1(v.e) + Ch(v.e, v.f, v.g) + k + w }

  function T2(v: Vars): bv32 { Big0(v.a) + Maj(v.a, v.b, v.c) }

  function Add(x: bv32, y: bv32): bv32 { x + y }

  function Round(v: Vars, k: bv32, w: bv32): Vars {
    Vars(Add(T1(v, k, w), T2(v)), v.a, v.b, v.c, Add(v.d, T1(v, k, w)), v.e, v.f, v.g)
  }

  /** The working variables after t rounds. */
  function Rounds(state: seq<bv32>, block: seq<byte>, t: nat): Vars
    requires |state| == 8 && |block| == 64 && t <= 64
    decreases t, |block|
  {
    if t == 0 then Vars(state[0], state[1], state[2], state[3], state[4], state[5], state[6], state[7])
    else Round(Rounds(state, block, t - 1), RoundConstant(t - 1), Schedule(block, t - 1))
  }

  function Compress(state: seq<bv32>, block: seq<byte>): (r: seq<bv32>)
    requires |state| == 8 && |block| == 64
    ensures |r| == 8
  {
    var v := Rounds(state, block, 64);
    seq(8, i requires 0 <= i < 8 => Add(state[i], Variable(v, i)))
  }

  function Variable(v: Vars, i: nat): bv32
    requires i < 8
  {
    match i
    case 0 => v.a
    case 1 => v.b
    case 2 => v.c
    case 3 => v.d
    case 4 => v.e
    case 5 => v.f
    case 6 => v.g
    case 7 => v.h
  }

  function Fold(state: seq<bv32>, m: seq<byte>): (r: seq<bv32>)
    requires |state| == 8 && |m| % 64 == 0
    ensures |r| == 8
    decreases |m|
  {
    if m == [] then state else MultipleOf64Less(|m|); Fold(Compress(state, m[..64]), m[64..])
  }

  /** The eight bits of x from bit n on. */
  function Octet(x: bv32, n: bv32): (r: bv32)
    requires n < 32
    ensures r <= 0xff
  {
    (x >> n) & 0xff
  }

  function WordBytes(x: bv32): seq<byte> {
    OctetIsByte(x);
    [Octet(x, 24) as int, Octet(x, 16) as int, Octet(x, 8) as int, Octet(x, 0) as int]
  }

  lemma OctetIsByte(x: bv32)
    ensures Octet(x, 24) as int < 256 && Octet(x, 16) as int < 256
    ensures Octet(x, 8) as int < 256 && Octet(x, 0) as int < 256
  {
  }

  function Digest(state: seq<bv32>): seq<byte> {
    if state == [] then [] else Digest(state[..|state| - 1]) + WordBytes(state[|state| - 1])
  }

  // ----- The implementation -----

  method ScheduleOf(block: seq<byte>) returns (w: array<bv32>)
    requires |block| == 64
    ensures fresh(w) && w.Length == 64 && forall t :: 0 <= t < 64 ==> w[t] == Schedule(block, t)
  {
    hide Word, Extend, ExtendInOrder;
    w := new bv32[64](_ => 0);
    for i := 0 to 16
      invariant forall t :: 0 <= t < i ==> w[t] == Schedule(block, t)
    {
      w[i] := Word(block[i * 4], block[i * 4 + 1], block[i * 4 + 2], block[i * 4 + 3]);
    }
    for i := 16 to 64
      invariant forall t :: 0 <= t < i ==> w[t] == Schedule(block, t)
    {
      ExtendOrder(w[i - 16], w[i - 15], w[i - 7], w[i - 2]);
      w[i] := ExtendInOrder(w[i - 16], w[i - 15], w[i - 7], w[i - 2]);
    }
  }

  function ExtendInOrder(w16: bv32, w15: bv32, w7: bv32, w2: bv32): bv32 { w16 + Small0(w15) + w7 + Small1(w2) }

  /** The source adds in another order than the standard; modulo 2^32 it is the same. */
  lemma ExtendOrder(w16: bv32, w15: bv32, w7: bv32, w2: bv32)
    ensures ExtendInOrder(w16, w15, w7, w2) == Extend(w2, w7, w15, w16)
  {
    hide Small0, Small1;
    Reorder(w16, Small0(w15), w7, Small1(w2));
  }

  lemma Reorder(a: bv32, b: bv32, c: bv32, d: bv32)
    ensures a + b + c + d == d + c + b + a
  {
  }

  /** sha256_block: the state is updated in place. */
  method CompressBlock(state: array<bv32>, block: seq<byte>)
    requires state.Length == 8 && |block| == 64
    modifies state
    ensures state[..] == Compress(old(state[..]), block)
  {
    hide Rounds, Add, Variable;
    var v := RunRounds(state[..], block);
    for i := 0 to 8
      invariant forall k :: 0 <= k < 8 ==>
                  state[k] == if k < i then Add(old(state[k]), Variable(v, k)) else old(state[k])
    {
      state[i] := Add(state[i], Variable(v, i));
    }
  }

  method RunRounds(state: seq<bv32>, block: seq<byte>) returns (v: Vars)
    requires |state| == 8 && |block| == 64
    ensures v == Rounds(state, block, 64)
  {
    hide Schedule, T1, T2, Add, RoundConstant;
    var w := ScheduleOf(block);
    v := Vars(state[0], state[1], state[2], state[3], state[4], state[5], state[6], state[7]);
    for i := 0 to 64
      invariant v == Rounds(state, block, i)
    {
      var t1 := T1(v, RoundConstant(i), w[i]);
      var t2 := T2(v);
      v := Vars(Add(t1, t2), v.a, v.b, v.c, Add(v.d, t1), v.e, v.f, v.g);
    }
  }

  lemma {:induction false} FoldSplit(state: seq<bv32>, a: seq<byte>, b: seq<byte>)
    requires |state| == 8 && |a| % 64 == 0 && |b| % 64 == 0
    ensures |a + b| % 64 == 0 && Fold(state, a + b) == Fold(Fold(state, a), b)
    decreases |a|
  {
    hide Compress;
    MultipleOf64(|a|, |b|);
    if a == [] {
      assert a + b == b;
    } else {
      MultipleOf64Less(|a|);
      assert (a + b)[..64] == a[..64] && (a + b)[64..] == a[64..] + b;
      FoldSplit(Compress(state, a[..64]), a[64..], b);
    }
  }

  lemma MultipleOf64(a: nat, b: nat)
    requires a % 64 == 0 && b % 64 == 0
    ensures (a + b) % 64 == 0
  {
  }

  lemma MultipleOf64Less(a: nat)
    requires a % 64 == 0 && a > 0
    ensures a >= 64 && (a - 64) % 64 == 0
  {
  }

  /** Hashing the blocks of m, one after another, in place. */
  method HashBlocks(state: array<bv32>, m: seq<byte>)
    requires state.Length == 8 && |m| % 64 == 0
    modifies state
    ensures state[..] == Fold(old(state[..]), m)
  {
    hide Compress;
    ghost var s := state[..];
    var i := 0;
    assert m[0..] == m;
    while i < |m|
      invariant i <= |m| && (|m| - i) % 64 == 0 && Fold(s, m) == Fold(state[..], m[i..])
    {
      MultipleOf64Less(|m| - i);
      var block := m[i..i + 64];
      assert m[i..][..64] == block && m[i..][64..] == m[i + 64..];
      CompressBlock(state, block);
      i := i + 64;
    }
  }

  /** The tail: what is left of the message, the 0x80 byte, zeros and the bit length. */
  method Tail(data: seq<byte>) returns (tail: array<byte>, tailLength: nat)
    requires |data| < 0x2000_0000_0000_0000
    ensures fresh(tail) && tailLength <= tail.Length && tailLength % 64 == 0
    ensures data[..|data| - |data| % 64] + tail[..tailLength] == Padded(data)
  {
    hide BigEndian, ZeroCount;
    var rest := |data| % 64;
    var whole := |data| - rest;
    tail := StartTail(data[whole..]);
    tailLength := if rest + 9 <= 64 then 64 else 128;
    WriteLength(tail, tailLength, 8 * |data|);
    ghost var z := tailLength - rest - 9;
    ZerosNeeded(|data|, z);
    TailIs(data, whole, tail[..tailLength], z);
  }

  /** The bytes left over, then 0x80, in a buffer of zeros. */
  method StartTail(left: seq<byte>) returns (tail: array<byte>)
    requires |left| < 64
    ensures fresh(tail) && tail.Length == 128
    ensures forall k :: 0 <= k < 128 ==> tail[k] == if k < |left| then left[k] else if k == |left| then 0x80 else 0
  {
    tail := new byte[128](_ => 0);
    for i := 0 to |left|
      invariant forall k :: 0 <= k < 128 ==> tail[k] == if k < i then left[k] else 0
    {
      tail[i] := left[i];
    }
    tail[|left|] := 0x80;
  }

  lemma TailIs(data: seq<byte>, whole: nat, tail: seq<byte>, z: nat)
    requires whole <= |data| && z == ZeroCount(|data|)
    requires var rest := data[whole..];
             && |tail| == |rest| + 9 + z
             && (forall k :: 0 <= k < |rest| + 1 + z ==>
                tail[k] == if k < |rest| then rest[k] else if k == |rest| then 0x80 else 0)
             && tail[|tail| - 8..] == BigEndian(8 * |data|, 8)
    ensures data[..whole] + tail == Padded(data)
  {
    hide ZeroCount, BigEndian;
    var rest, len8 := data[whole..], BigEndian(8 * |data|, 8);
    assert tail[..|tail| - 8] == rest + [0x80] + Zeros(z);
    assert tail == tail[..|tail| - 8] + len8;
    assert data == data[..whole] + rest;
  }

  lemma ZerosNeeded(length: nat, z: nat)
    requires z == (if length % 64 + 9 <= 64 then 64 else 128) - length % 64 - 9
    ensures z == ZeroCount(length)
  {
    var r := length % 64;
    Wrap(119 - r);
  }

  lemma Wrap(x: nat)
    requires x < 128
    ensures x % 64 == if x < 64 then x else x - 64
  {
  }

  method WriteLength(tail: array<byte>, tailLength: nat, bits: nat)
    requires 8 <= tailLength <= tail.Length
    modifies tail
    ensures forall k :: 0 <= k < tail.Length && !(tailLength - 8 <= k < tailLength) ==> tail[k] == old(tail[k])
    ensures tail[tailLength - 8..tailLength] == BigEndian(bits, 8)
  {
    hide BigEndian;
    var left := bits; // bits >> (i * 8)
    BigEndianNone();
    ghost var low: seq<byte> := [];
    for i := 0 to 8
      invariant forall k :: 0 <= k < tail.Length && !(tailLength - i <= k < tailLength) ==> tail[k] == old(tail[k])
      invariant |low| == i && tail[tailLength - i..tailLength] == low
      invariant BigEndian(bits, 8) == BigEndian(left, 8 - i) + low
    {
      tail[tailLength - 1 - i] := left % 256;
      BigEndianStep(left, 8 - i, low);
      low := [left % 256] + low;
      left := left / 256;
    }
  }

  lemma BigEndianNone()
    ensures forall x: nat :: BigEndian(x, 0) == []
  {
  }

  lemma BigEndianStep(x: nat, n: nat, low: seq<byte>)
    requires n > 0
    ensures BigEndian(x, n) + low == BigEndian(x / 256, n - 1) + ([x % 256] + low)
  {
  }

  /** The digest is the fold over the padded message, for every message the standard admits. */
  method Hash(data: seq<byte>) returns (digest: seq<byte>)
    requires |data| < 0x2000_0000_0000_0000
    ensures |Padded(data)| % 64 == 0 && digest == Digest(Fold(H0, Padded(data)))
  {
    hide Compress, Padded, Fold, H0;
    var state := InitialState();
    var whole := |data| - |data| % 64;
    WholeBlocks(|data|);
    HashBlocks(state, data[..whole]);
    var tail, tailLength := Tail(data);
    HashBlocks(state, tail[..tailLength]);
    FoldSplit(H0, data[..whole], tail[..tailLength]);
    digest := DigestOf(state[..]);
  }

  method InitialState() returns (state: array<bv32>)
    ensures fresh(state) && state.Length == 8 && |H0| == 8 && state[..] == H0
  {
    state := new bv32[8](i requires 0 <= i < 8 => H0[i]);
  }

  lemma WholeBlocks(n: nat)
    ensures n >= n % 64 && (n - n % 64) % 64 == 0
  {
  }

  method DigestOf(state: seq<bv32>) returns (digest: seq<byte>)
    ensures digest == Digest(state)
  {
    hide WordBytes;
    digest := [];
    for i := 0 to |state|
      invariant digest == Digest(state[..i])
    {
      assert state[..i + 1][..i] == state[..i];
      digest := digest + WordBytes(state[i]);
    }
    assert state[..|state|] == state;
  }
}
