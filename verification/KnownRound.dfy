/** One round and one word of the schedule, worked out in numbers: the first round of the digest of "abc" in the
    examples published with FIPS 180-4, and word 40 of its schedule. And every round, word and block as the sums
    modulo 2^32 that the standard writes.
 */
module KnownRound {
  import opened Bytes
  import opened Words
  import opened Machine
  import opened Fips180

  function Small0(x: uint32): uint32 { Xor32(Xor32(Rotr32(x, 7), Rotr32(x, 18)), Shr32(x, 3)) }

  function Small1(x: uint32): uint32 { Xor32(Xor32(Rotr32(x, 17), Rotr32(x, 19)), Shr32(x, 10)) }

  function Big0(x: uint32): uint32 { Xor32(Xor32(Rotr32(x, 2), Rotr32(x, 13)), Rotr32(x, 22)) }

  function Big1(x: uint32): uint32 { Xor32(Xor32(Rotr32(x, 6), Rotr32(x, 11)), Rotr32(x, 25)) }

  function Choice(x: uint32, y: uint32, z: uint32): uint32 { Xor32(And32(x, y), And32(Not32(x), z)) }

  function Most(x: uint32, y: uint32, z: uint32): uint32 { Xor32(Xor32(And32(x, y), And32(x, z)), And32(y, z)) }

  lemma Small0Is(w: word)
    ensures U(Sigma0(w)) == Small0(U(w))
  {
    hide U, Xor32, Rotr32, Shr32, Xor, Rotr, Shr;
    URotr(w, 7);
    URotr(w, 18);
    UShr(w, 3);
    UXor(Rotr(w, 7), Rotr(w, 18));
    UXor(Xor(Rotr(w, 7), Rotr(w, 18)), Shr(w, 3));
  }

  lemma Small1Is(w: word)
    ensures U(Sigma1(w)) == Small1(U(w))
  {
    hide U, Xor32, Rotr32, Shr32, Xor, Rotr, Shr;
    URotr(w, 17);
    URotr(w, 19);
    UShr(w, 10);
    UXor(Rotr(w, 17), Rotr(w, 19));
    UXor(Xor(Rotr(w, 17), Rotr(w, 19)), Shr(w, 10));
  }

  lemma Big0Is(w: word)
    ensures U(BigSigma0(w)) == Big0(U(w))
  {
    hide U, Xor32, Rotr32, Shr32, Xor, Rotr, Shr;
    URotr(w, 2);
    URotr(w, 13);
    URotr(w, 22);
    UXor(Rotr(w, 2), Rotr(w, 13));
    UXor(Xor(Rotr(w, 2), Rotr(w, 13)), Rotr(w, 22));
  }

  lemma Big1Is(w: word)
    ensures U(BigSigma1(w)) == Big1(U(w))
  {
    hide U, Xor32, Rotr32, Shr32, Xor, Rotr, Shr;
    URotr(w, 6);
    URotr(w, 11);
    URotr(w, 25);
    UXor(Rotr(w, 6), Rotr(w, 11));
    UXor(Xor(Rotr(w, 6), Rotr(w, 11)), Rotr(w, 25));
  }

  lemma ChoiceIs(x: word, y: word, z: word)
    ensures U(Ch(x, y, z)) == Choice(U(x), U(y), U(z))
  {
    hide U, Xor32, And32, Not32, Xor, And, Not;
    UAnd(x, y);
    UNot(x);
    UAnd(Not(x), z);
    UXor(And(x, y), And(Not(x), z));
  }

  lemma MostIs(x: word, y: word, z: word)
    ensures U(Maj(x, y, z)) == Most(U(x), U(y), U(z))
  {
    hide U, Xor32, And32, Xor, And;
    UAnd(x, y);
    UAnd(x, z);
    UAnd(y, z);
    UXor(And(x, y), And(x, z));
    UXor(Xor(And(x, y), And(x, z)), And(y, z));
  }

  lemma Sum1OfE()
    ensures BigSigma1(0x510e527f) == 0x3587272b
  {
    Sum1OfEValue();
    hide Big1;
    Big1Is(0x510e527f);
    assert U(0x510e527f) == 0x510e527f;
    assert U(0x3587272b) == 0x3587272b;
    UInjective(BigSigma1(0x510e527f), 0x3587272b);
  }

  lemma Sum1OfEValue()
    ensures Big1(0x510e527f) == 0x3587272b
  {
  }

  lemma ChoiceOfE()
    ensures Ch(0x510e527f, 0x9b05688c, 0x1f83d9ab) == 0x1f85c98c
  {
    ChoiceOfEValue();
    hide Choice;
    ChoiceIs(0x510e527f, 0x9b05688c, 0x1f83d9ab);
    assert U(0x510e527f) == 0x510e527f;
    assert U(0x9b05688c) == 0x9b05688c;
    assert U(0x1f83d9ab) == 0x1f83d9ab;
    assert U(0x1f85c98c) == 0x1f85c98c;
    UInjective(Ch(0x510e527f, 0x9b05688c, 0x1f83d9ab), 0x1f85c98c);
  }

  lemma ChoiceOfEValue()
    ensures Choice(0x510e527f, 0x9b05688c, 0x1f83d9ab) == 0x1f85c98c
  {
  }

  lemma Sum0OfA()
    ensures BigSigma0(0x6a09e667) == 0xce20b47e
  {
    Sum0OfAValue();
    hide Big0;
    Big0Is(0x6a09e667);
    assert U(0x6a09e667) == 0x6a09e667;
    assert U(0xce20b47e) == 0xce20b47e;
    UInjective(BigSigma0(0x6a09e667), 0xce20b47e);
  }

  lemma Sum0OfAValue()
    ensures Big0(0x6a09e667) == 0xce20b47e
  {
  }

  lemma MajorityOfA()
    ensures Maj(0x6a09e667, 0xbb67ae85, 0x3c6ef372) == 0x3a6fe667
  {
    MajorityOfAValue();
    hide Most;
    MostIs(0x6a09e667, 0xbb67ae85, 0x3c6ef372);
    assert U(0x6a09e667) == 0x6a09e667;
    assert U(0xbb67ae85) == 0xbb67ae85;
    assert U(0x3c6ef372) == 0x3c6ef372;
    assert U(0x3a6fe667) == 0x3a6fe667;
    UInjective(Maj(0x6a09e667, 0xbb67ae85, 0x3c6ef372), 0x3a6fe667);
  }

  lemma MajorityOfAValue()
    ensures Most(0x6a09e667, 0xbb67ae85, 0x3c6ef372) == 0x3a6fe667
  {
  }

  lemma Sigma0OfW()
    ensures Sigma0(0xb73679a2) == 0xcde00e0a
  {
    Sigma0OfWValue();
    hide Small0;
    Small0Is(0xb73679a2);
    assert U(0xb73679a2) == 0xb73679a2;
    assert U(0xcde00e0a) == 0xcde00e0a;
    UInjective(Sigma0(0xb73679a2), 0xcde00e0a);
  }

  lemma Sigma0OfWValue()
    ensures Small0(0xb73679a2) == 0xcde00e0a
  {
  }

  lemma Sigma1OfW()
    ensures Sigma1(0x9409e33e) == 0xcddd9afd
  {
    Sigma1OfWValue();
    hide Small1;
    Small1Is(0x9409e33e);
    assert U(0x9409e33e) == 0x9409e33e;
    assert U(0xcddd9afd) == 0xcddd9afd;
    UInjective(Sigma1(0x9409e33e), 0xcddd9afd);
  }

  lemma Sigma1OfWValue()
    ensures Small1(0x9409e33e) == 0xcddd9afd
  {
  }

  /** The first round for "abc". */
  lemma FirstRound()
    ensures Round(H0, 0x428a2f98, 0x61626380) ==
            Vars(0x5d6aebcd, 0x6a09e667, 0xbb67ae85, 0x3c6ef372, 0xfa2a4622, 0x510e527f, 0x9b05688c, 0x1f83d9ab)
  {
    hide BigSigma0, BigSigma1, Ch, Maj;
    Sum1OfE();
    ChoiceOfE();
    Sum0OfA();
    MajorityOfA();
  }

  /** Word 40 of its schedule, from words 24, 25, 33 and 38. */
  lemma FortiethWord()
    ensures Scheduled(0xc8215c1a, 0xb73679a2, 0x3b68ba73, 0x9409e33e) == 0x9f47bf94
  {
    hide Sigma0, Sigma1;
    Sigma0OfW();
    Sigma1OfW();
  }

  /** The digest is the eight words in their order. */
  lemma DigestReads(hash: Vars)
    ensures var d := Digest(hash);
      && FromBigEndian(d[0..4]) == hash.a as nat && FromBigEndian(d[4..8]) == hash.b as nat
      && FromBigEndian(d[8..12]) == hash.c as nat && FromBigEndian(d[12..16]) == hash.d as nat
      && FromBigEndian(d[16..20]) == hash.e as nat && FromBigEndian(d[20..24]) == hash.f as nat
      && FromBigEndian(d[24..28]) == hash.g as nat && FromBigEndian(d[28..32]) == hash.h as nat
  {
    hide WordBytes, FromBigEndian;
    var d := Digest(hash);
    assert d[0..4] == WordBytes(hash.a) && d[4..8] == WordBytes(hash.b);
    assert d[8..12] == WordBytes(hash.c) && d[12..16] == WordBytes(hash.d);
    assert d[16..20] == WordBytes(hash.e) && d[20..24] == WordBytes(hash.f);
    assert d[24..28] == WordBytes(hash.g) && d[28..32] == WordBytes(hash.h);
    WordBytesReadBack(hash.a);
    WordBytesReadBack(hash.b);
    WordBytesReadBack(hash.c);
    WordBytesReadBack(hash.d);
    WordBytesReadBack(hash.e);
    WordBytesReadBack(hash.f);
    WordBytesReadBack(hash.g);
    WordBytesReadBack(hash.h);
  }

  // --- The sums of section 6.2.2 ---

  lemma AddTwice(x: nat, y: nat)
    ensures (x % 0x1_0000_0000 + y) % 0x1_0000_0000 == (x + y) % 0x1_0000_0000
  {
    var q, p := x / 0x1_0000_0000, (x + y) / 0x1_0000_0000;
    var z := x % 0x1_0000_0000 + y;
    DivisionUnique(z, 0x1_0000_0000, p - q, (x + y) % 0x1_0000_0000);
  }

  lemma AddToSum(x: nat, s: word, y: word)
    requires s as nat == x % 0x1_0000_0000
    ensures Add(s, y) as nat == (x + y as nat) % 0x1_0000_0000
  {
    AddTwice(x, y as nat);
  }

  lemma SumOfFour(a: word, b: word, c: word, d: word)
    ensures Add(Add(Add(a, b), c), d) as nat == (a as nat + b as nat + c as nat + d as nat) % 0x1_0000_0000
  {
    hide Add;
    AddToSum(a as nat, a, b);
    AddToSum(a as nat + b as nat, Add(a, b), c);
    AddToSum(a as nat + b as nat + c as nat, Add(Add(a, b), c), d);
  }

  /** A word of the schedule is the sum of four, from 2, 7, 15 and 16 places before it. */
  lemma ScheduleSum(block: seq<byte>, t: nat)
    requires |block| == 64 && 16 <= t < 64
    ensures W(block, t) as nat ==
            (Sigma1(W(block, t - 2)) as nat + W(block, t - 7) as nat + Sigma0(W(block, t - 15)) as nat +
             W(block, t - 16) as nat) % 0x1_0000_0000
  {
    hide Add, Sigma0, Sigma1, WordAt;
    SumOfFour(Sigma1(W(block, t - 2)), W(block, t - 7), Sigma0(W(block, t - 15)), W(block, t - 16));
  }

  /** A round adds seven words into a and six into e, and moves the others on. */
  lemma RoundSum(v: Vars, k: word, w: word)
    ensures var r := Round(v, k, w);
      var t1 := v.h as nat + BigSigma1(v.e) as nat + Ch(v.e, v.f, v.g) as nat + k as nat + w as nat;
      && r.a as nat == (t1 + BigSigma0(v.a) as nat + Maj(v.a, v.b, v.c) as nat) % 0x1_0000_0000
      && r.e as nat == (v.d as nat + t1) % 0x1_0000_0000
      && r.b == v.a && r.c == v.b && r.d == v.c && r.f == v.e && r.g == v.f && r.h == v.g
  {
    hide Add, BigSigma0, BigSigma1, Ch, Maj;
    var s4 := Add(Add(Add(v.h, BigSigma1(v.e)), Ch(v.e, v.f, v.g)), k);
    var n := v.h as nat + BigSigma1(v.e) as nat + Ch(v.e, v.f, v.g) as nat + k as nat;
    SumOfFour(v.h, BigSigma1(v.e), Ch(v.e, v.f, v.g), k);
    AddToSum(n, s4, w);
    var t1 := Add(s4, w);
    var x, y := BigSigma0(v.a), Maj(v.a, v.b, v.c);
    AddToSum(x as nat, x, y);
    SumOfSums(n + w as nat, t1, x as nat + y as nat, Add(x, y));
    SumOfSums(v.d as nat, v.d, n + w as nat, t1);
  }

  lemma SumOfSums(x: nat, s: word, y: nat, u: word)
    requires s as nat == x % 0x1_0000_0000 && u as nat == y % 0x1_0000_0000
    ensures Add(s, u) as nat == (x + y) % 0x1_0000_0000
  {
    hide Add;
    AddToSum(x, s, u);
    AddTwice(y, x);
  }

  /** A block is mixed in by 64 rounds, whose results are added to the hash word by word. */
  lemma CompressSum(hash: Vars, block: seq<byte>)
    requires |block| == 64
    ensures var c, v := Compress(hash, block), Rounds(hash, block, 64);
      && c.a as nat == (hash.a as nat + v.a as nat) % 0x1_0000_0000
      && c.b as nat == (hash.b as nat + v.b as nat) % 0x1_0000_0000
      && c.c as nat == (hash.c as nat + v.c as nat) % 0x1_0000_0000
      && c.d as nat == (hash.d as nat + v.d as nat) % 0x1_0000_0000
      && c.e as nat == (hash.e as nat + v.e as nat) % 0x1_0000_0000
      && c.f as nat == (hash.f as nat + v.f as nat) % 0x1_0000_0000
      && c.g as nat == (hash.g as nat + v.g as nat) % 0x1_0000_0000
      && c.h as nat == (hash.h as nat + v.h as nat) % 0x1_0000_0000
  {
    hide Rounds;
  }

  // --- HMAC, section 2 of RFC 2104 ---

  /** For a key that fits a block: the key's bytes exclusive-ored with 54 and 92, and behind them 54 and 92 as they
      are; the inner hash over the first and the message, the outer over the second and the inner hash. */
  lemma HmacReads(key: seq<byte>, msg: seq<byte>) returns (ipad: seq<byte>, opad: seq<byte>)
    requires |key| <= 64
    ensures |ipad| == |opad| == 64
    ensures forall i :: |key| <= i < 64 ==> ipad[i] == 54 && opad[i] == 92
    ensures forall i, b: nat :: 0 <= i < |key| && b < 8 ==>
              && At(ipad[i] as word, b) == (At(key[i] as word, b) != At(54, b))
              && At(opad[i] as word, b) == (At(key[i] as word, b) != At(92, b))
    ensures Hmac(key, msg) == Sha256(opad + Sha256(ipad + msg))
  {
    hide Sha256, Xor;
    var k0 := KeyBlock(key);
    ipad, opad := XorBytes(k0, 0x36), XorBytes(k0, 0x5c);
    XorZero(0x36);
    XorZero(0x5c);
  }

  lemma XorZero(b: byte)
    ensures XorByte(0, b) == b
  {
    var w := b as word;
    forall i: nat | i < 32
      ensures At(0, i) == false
    {
      NoBitBeyond(0, 0, i);
    }
    SameWord(Xor(0, w), w);
  }
}
