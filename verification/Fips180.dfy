/** SHA-256 as FIPS 180-4 defines it, written one-shot over a whole message.

    Nothing here follows the incremental class of src/s3_reader.cpp: padding is section 5.1.1,
    parsing section 5.2.1, the message schedule and the 64 rounds section 6.2.2. Words are strings
    of bits (module `Words`), where the program computes with std::uint32_t (module `Machine`). It is
    the reference the streaming class is proved against in module `StreamingSha256`.
 */
module Fips180 {
  import opened Bytes
  import opened Words

  // The constants of section 4.2.2.
  const K: seq<word> :=
    [0x428a2f98, 0x71374491, 0xb5c0fbcf, 0xe9b5dba5, 0x3956c25b, 0x59f111f1, 0x923f82a4, 0xab1c5ed5] +
    [0xd807aa98, 0x12835b01, 0x243185be, 0x550c7dc3, 0x72be5d74, 0x80deb1fe, 0x9bdc06a7, 0xc19bf174] +
    [0xe49b69c1, 0xefbe4786, 0x0fc19dc6, 0x240ca1cc, 0x2de92c6f, 0x4a7484aa, 0x5cb0a9dc, 0x76f988da] +
    [0x983e5152, 0xa831c66d, 0xb00327c8, 0xbf597fc7, 0xc6e00bf3, 0xd5a79147, 0x06ca6351, 0x14292967] +
    [0x27b70a85, 0x2e1b2138, 0x4d2c6dfc, 0x53380d13, 0x650a7354, 0x766a0abb, 0x81c2c92e, 0x92722c85] +
    [0xa2bfe8a1, 0xa81a664b, 0xc24b8b70, 0xc76c51a3, 0xd192e819, 0xd6990624, 0xf40e3585, 0x106aa070] +
    [0x19a4c116, 0x1e376c08, 0x2748774c, 0x34b0bcb5, 0x391c0cb3, 0x4ed8aa4a, 0x5b9cca4f, 0x682e6ff3] +
    [0x748f82ee, 0x78a5636f, 0x84c87814, 0x8cc70208, 0x90befffa, 0xa4506ceb, 0xbef9a3f7, 0xc67178f2]

  function RoundConstant(t: nat): word
    requires t < 64
  {
    K[t]
  }

  // Section 4.1.2.
  function Sigma0(x: word): word { Xor(Xor(Rotr(x, 7), Rotr(x, 18)), Shr(x, 3)) }

  function Sigma1(x: word): word { Xor(Xor(Rotr(x, 17), Rotr(x, 19)), Shr(x, 10)) }

  function BigSigma0(x: word): word { Xor(Xor(Rotr(x, 2), Rotr(x, 13)), Rotr(x, 22)) }

  function BigSigma1(x: word): word { Xor(Xor(Rotr(x, 6), Rotr(x, 11)), Rotr(x, 25)) }

  function Ch(x: word, y: word, z: word): word { Xor(And(x, y), And(Not(x), z)) }

  function Maj(x: word, y: word, z: word): word { Xor(Xor(And(x, y), And(x, z)), And(y, z)) }

  /** Ch chooses between the bits of y and z by the bit of x; Maj is the majority of the three. */
  lemma ChooseAndMajority(x: word, y: word, z: word, i: nat)
    requires i < 32
    ensures At(Ch(x, y, z), i) == if At(x, i) then At(y, i) else At(z, i)
    ensures At(Maj(x, y, z), i) <==> (At(x, i) && At(y, i)) || (At(x, i) && At(z, i)) || (At(y, i) && At(z, i))
  {
    hide At;
  }

  // Section 5.2.1: the t-th word of a block, most significant byte first (section 3.1).
  function WordAt(block: seq<byte>, t: nat): word
    requires |block| == 64 && t < 16
  {
    FourBytesFit(block[4 * t..4 * t + 4]);
    FromBigEndian(block[4 * t..4 * t + 4]) as word
  }

  lemma {:induction false} BytesFit(s: seq<byte>)
    ensures FromBigEndian(s) < Pow256(|s|)
  {
    if s != [] {
      BytesFit(s[..|s| - 1]);
    }
  }

  lemma FourBytesFit(s: seq<byte>)
    requires |s| == 4
    ensures FromBigEndian(s) < 0x1_0000_0000
  {
    BytesFit(s);
    assert Pow256(2) == 0x1_0000 && Pow256(4) == 0x1_0000 * Pow256(2);
  }

  // The message schedule W of section 6.2.2, step 1.
  function W(block: seq<byte>, t: nat): word
    requires |block| == 64 && t < 64
  {
    if t < 16 then WordAt(block, t)
    else Scheduled(W(block, t - 16), W(block, t - 15), W(block, t - 7), W(block, t - 2))
  }

  function Scheduled(w16: word, w15: word, w7: word, w2: word): word {
    Add(Add(Add(Sigma1(w2), w7), Sigma0(w15)), w16)
  }

  // The eight working variables, and the eight words of an intermediate hash value.
  datatype Vars = Vars(a: word, b: word, c: word, d: word, e: word, f: word, g: word, h: word)

  // The initial hash value of section 5.3.3.
  const H0: Vars := Vars(
    0x6a09e667, 0xbb67ae85, 0x3c6ef372, 0xa54ff53a, 0x510e527f, 0x9b05688c, 0x1f83d9ab, 0x5be0cd19)

  // One round of section 6.2.2, step 3.
  function Round(v: Vars, k: word, w: word): Vars {
    var t1 := Add(Add(Add(Add(v.h, BigSigma1(v.e)), Ch(v.e, v.f, v.g)), k), w);
    var t2 := Add(BigSigma0(v.a), Maj(v.a, v.b, v.c));
    Vars(Add(t1, t2), v.a, v.b, v.c, Add(v.d, t1), v.e, v.f, v.g)
  }

  function Rounds(v: Vars, block: seq<byte>, t: nat): Vars
    requires |block| == 64 && t <= 64
  {
    if t == 0 then v else Round(Rounds(v, block, t - 1), RoundConstant(t - 1), W(block, t - 1))
  }

  // Section 6.2.2 for one block: the next intermediate hash value.
  function Compress(hash: Vars, block: seq<byte>): Vars
    requires |block| == 64
  {
    var v := Rounds(hash, block, 64);
    Vars(Add(hash.a, v.a), Add(hash.b, v.b), Add(hash.c, v.c), Add(hash.d, v.d),
         Add(hash.e, v.e), Add(hash.f, v.f), Add(hash.g, v.g), Add(hash.h, v.h))
  }

  // The intermediate hash value after the first `k` blocks of `m`.
  function HashBlocks(m: seq<byte>, k: nat): Vars
    requires 64 * k <= |m|
  {
    if k == 0 then H0 else Compress(HashBlocks(m, k - 1), m[64 * (k - 1)..64 * k])
  }

  lemma {:induction false} HashBlocksOfPrefix(m: seq<byte>, more: seq<byte>, k: nat)
    requires 64 * k <= |m|
    ensures HashBlocks(m + more, k) == HashBlocks(m, k)
  {
    hide Compress;
    if k > 0 {
      HashBlocksOfPrefix(m, more, k - 1);
      assert (m + more)[64 * (k - 1)..64 * k] == m[64 * (k - 1)..64 * k];
    }
  }

  // k zero bytes after the 0x80 byte leave exactly room for the 8-byte length field.
  predicate LeavesRoom(len: nat, k: nat) {
    (len + 1 + k) % 64 == 56
  }

  // Section 5.1.1: the smallest number of zero bytes that leaves room for the length field.
  function ZeroCount(len: nat): (k: nat)
    ensures k < 64 && LeavesRoom(len, k)
    ensures forall j: nat :: LeavesRoom(len, j) ==> k <= j
  {
    (55 - len) % 64
  }

  // Section 5.1.1. The standard's messages are shorter than 2^64 bits, where the modulus is idle.
  function Pad(m: seq<byte>): (r: seq<byte>)
    ensures |r| % 64 == 0 && m <= r
  {
    WholeBlocks(|m| + 1 + ZeroCount(|m|));
    m + [0x80] + Zeros(ZeroCount(|m|)) + BigEndian(Wrap64(8 * |m|), 8)
  }

  lemma Wrap64Fits(x: nat)
    ensures Wrap64(x) < Pow256(8)
  {
    assert Pow256(2) == 0x1_0000 && Pow256(4) == 0x1_0000 * Pow256(2);
    assert Pow256(6) == 0x1_0000 * Pow256(4) && Pow256(8) == 0x1_0000 * Pow256(6);
  }

  /** Behind the message stand one bit 1, zeros up to the end but for eight bytes, and the number of bits. */
  lemma PadReads(m: seq<byte>)
    ensures var p := Pad(m);
      && p[..|m|] == m && p[|m|] == 128
      && (forall i :: |m| < i < |p| - 8 ==> p[i] == 0)
      && FromBigEndian(p[|p| - 8..]) == 8 * |m| % 0x1_0000_0000_0000_0000
      && |p| <= |m| + 72
  {
    hide Wrap64, BigEndian, FromBigEndian;
    var p, n := Pad(m), Wrap64(8 * |m|);
    Wrap64Fits(8 * |m|);
    BigEndianReadsBack(n, 8);
    assert p[|p| - 8..] == BigEndian(n, 8);
    assert n == 8 * |m| % 0x1_0000_0000_0000_0000 by {
      WrapIs(8 * |m|);
    }
  }

  lemma WrapIs(x: nat)
    ensures Wrap64(x) == x % 0x1_0000_0000_0000_0000
  {
  }

  lemma WholeBlocks(len: nat)
    requires len % 64 == 56
    ensures (len + 8) % 64 == 0
  {
  }

  // The four bytes of a word, most significant first.
  function WordBytes(w: word): (r: seq<byte>)
    ensures |r| == 4
  {
    BigEndian(w as nat, 4)
  }

  lemma WordBytesReadBack(w: word)
    ensures FromBigEndian(WordBytes(w)) == w as nat
  {
    assert Pow256(2) == 0x1_0000 && Pow256(4) == 0x1_0000 * Pow256(2);
    BigEndianReadsBack(w as nat, 4);
  }

  function Digest(hash: Vars): (r: seq<byte>)
    ensures |r| == 32
  {
    WordBytes(hash.a) + WordBytes(hash.b) + WordBytes(hash.c) + WordBytes(hash.d) +
    WordBytes(hash.e) + WordBytes(hash.f) + WordBytes(hash.g) + WordBytes(hash.h)
  }

  /** SHA-256(m). */
  function Sha256(m: seq<byte>): (r: seq<byte>)
    ensures |r| == 32
  {
    var padded := Pad(m);
    Digest(HashBlocks(padded, |padded| / 64))
  }

  /** HMAC-SHA256 as section 2 of RFC 2104 defines it. */
  function Hmac(key: seq<byte>, msg: seq<byte>): (r: seq<byte>)
    ensures |r| == 32
  {
    var k0 := KeyBlock(key);
    Sha256(XorBytes(k0, 0x5c) + Sha256(XorBytes(k0, 0x36) + msg))
  }

  function KeyBlock(key: seq<byte>): (r: seq<byte>)
    ensures |r| == 64
  {
    var short := if |key| > 64 then Sha256(key) else key;
    short + Zeros(64 - |short|)
  }

  function XorBytes(s: seq<byte>, b: byte): (r: seq<byte>)
    ensures |r| == |s|
  {
    seq(|s|, i requires 0 <= i < |s| => XorByte(s[i], b))
  }

  function XorByte(a: byte, b: byte): byte {
    XorFits(a as word, b as word);
    Xor(a as word, b as word) as byte
  }
}
