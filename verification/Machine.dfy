/** The std::uint32_t arithmetic of the program as bit vectors, and what it does to the words of FIPS 180-4. */
module Machine {
  import opened Bytes
  import opened Words

  type uint32 = bv32

  function U(w: word): uint32 { w as uint32 }

  // The bit vector whose only set bit is bit i.
  function Mask(i: nat): uint32 {
    if i == 0 then 1 else Mask(i - 1) << 1
  }

  predicate Has(x: uint32, i: nat) { x & Mask(i) != 0 }

  predicate Weighs(i: nat, m: uint32, p: nat) {
    Mask(i) == m && Power2(i) == p
  }

  lemma Weights()
    ensures Weighs(0, 0x1, 0x1) && Weighs(1, 0x2, 0x2) &&
            Weighs(2, 0x4, 0x4) && Weighs(3, 0x8, 0x8) &&
            Weighs(4, 0x10, 0x10) && Weighs(5, 0x20, 0x20) &&
            Weighs(6, 0x40, 0x40) && Weighs(7, 0x80, 0x80) &&
            Weighs(8, 0x100, 0x100) && Weighs(9, 0x200, 0x200) &&
            Weighs(10, 0x400, 0x400) && Weighs(11, 0x800, 0x800) &&
            Weighs(12, 0x1000, 0x1000) && Weighs(13, 0x2000, 0x2000) &&
            Weighs(14, 0x4000, 0x4000) && Weighs(15, 0x8000, 0x8000) &&
            Weighs(16, 0x10000, 0x10000) && Weighs(17, 0x20000, 0x20000) &&
            Weighs(18, 0x40000, 0x40000) && Weighs(19, 0x80000, 0x80000) &&
            Weighs(20, 0x100000, 0x100000) && Weighs(21, 0x200000, 0x200000) &&
            Weighs(22, 0x400000, 0x400000) && Weighs(23, 0x800000, 0x800000) &&
            Weighs(24, 0x1000000, 0x1000000) && Weighs(25, 0x2000000, 0x2000000) &&
            Weighs(26, 0x4000000, 0x4000000) && Weighs(27, 0x8000000, 0x8000000) &&
            Weighs(28, 0x10000000, 0x10000000) && Weighs(29, 0x20000000, 0x20000000) &&
            Weighs(30, 0x40000000, 0x40000000) && Weighs(31, 0x80000000, 0x80000000)
  {
  }

  // A bit read by its mask and by its weight.
  predicate Agree(w: word, m: uint32, p: nat) {
    p > 0 && (U(w) & m != 0) == (w as int / p % 2 == 1)
  }

  lemma Agreement(w: word)
    ensures Agree(w, 0x1, 0x1) && Agree(w, 0x2, 0x2) &&
            Agree(w, 0x4, 0x4) && Agree(w, 0x8, 0x8) &&
            Agree(w, 0x10, 0x10) && Agree(w, 0x20, 0x20) &&
            Agree(w, 0x40, 0x40) && Agree(w, 0x80, 0x80) &&
            Agree(w, 0x100, 0x100) && Agree(w, 0x200, 0x200) &&
            Agree(w, 0x400, 0x400) && Agree(w, 0x800, 0x800) &&
            Agree(w, 0x1000, 0x1000) && Agree(w, 0x2000, 0x2000) &&
            Agree(w, 0x4000, 0x4000) && Agree(w, 0x8000, 0x8000) &&
            Agree(w, 0x10000, 0x10000) && Agree(w, 0x20000, 0x20000) &&
            Agree(w, 0x40000, 0x40000) && Agree(w, 0x80000, 0x80000) &&
            Agree(w, 0x100000, 0x100000) && Agree(w, 0x200000, 0x200000) &&
            Agree(w, 0x400000, 0x400000) && Agree(w, 0x800000, 0x800000) &&
            Agree(w, 0x1000000, 0x1000000) && Agree(w, 0x2000000, 0x2000000) &&
            Agree(w, 0x4000000, 0x4000000) && Agree(w, 0x8000000, 0x8000000) &&
            Agree(w, 0x10000000, 0x10000000) && Agree(w, 0x20000000, 0x20000000) &&
            Agree(w, 0x40000000, 0x40000000) && Agree(w, 0x80000000, 0x80000000)
  {
  }

  predicate IsIndex(i: nat) {
    i == 0 || i == 1 || i == 2 || i == 3 || i == 4 || i == 5 || i == 6 || i == 7 ||
    i == 8 || i == 9 || i == 10 || i == 11 || i == 12 || i == 13 || i == 14 || i == 15 ||
    i == 16 || i == 17 || i == 18 || i == 19 || i == 20 || i == 21 || i == 22 || i == 23 ||
    i == 24 || i == 25 || i == 26 || i == 27 || i == 28 || i == 29 || i == 30 || i == 31
  }

  lemma AgreementAt(w: word, i: nat)
    requires i < 32
    ensures Agree(w, Mask(i), Power2(i))
  {
    hide Mask, Power2, Agree;
    Weights();
    Agreement(w);
    assert IsIndex(i);
  }

  /** A word and its machine form have the same bits. */
  lemma BitOfU(w: word, i: nat)
    requires i < 32
    ensures Has(U(w), i) == At(w, i)
  {
    hide Mask, Power2, U;
    BitByDivision(w as nat, i);
    AgreementAt(w, i);
  }

  function WordOfMachine(x: uint32): (w: word)
    ensures U(w) == x
  {
    (x as int) as word
  }

  /** The machine form of a word is the machine word with its bits. */
  lemma UFromBits(w: word, x: uint32)
    requires forall i: nat :: i < 32 ==> Has(x, i) == At(w, i)
    ensures U(w) == x
  {
    hide U, Has, At;
    var v := WordOfMachine(x);
    forall i: nat | i < 32
      ensures At(v, i) == At(w, i)
    {
      BitOfU(v, i);
    }
    SameWord(v, w);
  }

  lemma UInjective(a: word, b: word)
    requires U(a) == U(b)
    ensures a == b
  {
    hide U, Has, At;
    forall i: nat | i < 32
      ensures At(a, i) == At(b, i)
    {
      BitOfU(a, i);
      BitOfU(b, i);
    }
    SameWord(a, b);
  }

  // --- Bitwise operations ---

  lemma MaskUp(x: uint32, m: uint32)
    ensures (x & (m << 1) != 0) == ((x >> 1) & m != 0)
  {
  }

  function Half(x: uint32): uint32 { x >> 1 }

  lemma HasUp(x: uint32, i: nat)
    ensures Has(x, i + 1) == Has(Half(x), i)
  {
    MaskUp(x, Mask(i));
  }

  function And32(x: uint32, y: uint32): uint32 { x & y }

  function Xor32(x: uint32, y: uint32): uint32 { x ^ y }

  lemma AndAt0(x: uint32, y: uint32)
    ensures Has(And32(x, y), 0) == (Has(x, 0) && Has(y, 0))
  {
    assert (x & y) & 1 == (x & 1) & (y & 1);
  }

  lemma AndHalf(x: uint32, y: uint32)
    ensures Half(And32(x, y)) == And32(Half(x), Half(y))
  {
  }

  lemma {:induction false} AndHas(x: uint32, y: uint32, i: nat)
    requires i < 32
    ensures Has(And32(x, y), i) == (Has(x, i) && Has(y, i))
    decreases i
  {
    hide Has, And32, Half;
    if i == 0 {
      AndAt0(x, y);
    } else {
      HasUp(x, i - 1);
      HasUp(y, i - 1);
      HasUp(And32(x, y), i - 1);
      AndHalf(x, y);
      AndHas(Half(x), Half(y), i - 1);
    }
  }

  lemma UAnd(x: word, y: word)
    ensures U(And(x, y)) == And32(U(x), U(y))
  {
    hide U, At, Has, And32;
    forall i: nat | i < 32
      ensures Has(And32(U(x), U(y)), i) == At(And(x, y), i)
    {
      BitOfU(x, i);
      BitOfU(y, i);
      AndHas(U(x), U(y), i);
    }
    UFromBits(And(x, y), And32(U(x), U(y)));
  }

  lemma XorAt0(x: uint32, y: uint32)
    ensures Has(Xor32(x, y), 0) == (Has(x, 0) != Has(y, 0))
  {
    assert (x ^ y) & 1 == (x & 1) ^ (y & 1);
  }

  lemma XorHalf(x: uint32, y: uint32)
    ensures Half(Xor32(x, y)) == Xor32(Half(x), Half(y))
  {
  }

  lemma {:induction false} XorHas(x: uint32, y: uint32, i: nat)
    requires i < 32
    ensures Has(Xor32(x, y), i) == (Has(x, i) != Has(y, i))
    decreases i
  {
    hide Has, Xor32, Half;
    if i == 0 {
      XorAt0(x, y);
    } else {
      HasUp(x, i - 1);
      HasUp(y, i - 1);
      HasUp(Xor32(x, y), i - 1);
      XorHalf(x, y);
      XorHas(Half(x), Half(y), i - 1);
    }
  }

  lemma UXor(x: word, y: word)
    ensures U(Xor(x, y)) == Xor32(U(x), U(y))
  {
    hide U, At, Has, Xor32;
    forall i: nat | i < 32
      ensures Has(Xor32(U(x), U(y)), i) == At(Xor(x, y), i)
    {
      BitOfU(x, i);
      BitOfU(y, i);
      XorHas(U(x), U(y), i);
    }
    UFromBits(Xor(x, y), Xor32(U(x), U(y)));
  }

  function Not32(x: uint32): uint32 { !x }

  lemma NotIsXor(x: uint32)
    ensures Not32(x) == Xor32(x, 0xffff_ffff)
  {
  }

  lemma AllOnes(m: uint32)
    ensures 0xffff_ffff & m == m
  {
  }

  lemma OnesHas(i: nat)
    requires i < 32
    ensures Has(0xffff_ffff, i)
  {
    AllOnes(Mask(i));
    assert Mask(i) != 0 by {
      hide Mask, Power2;
      Weights();
      assert IsIndex(i);
    }
  }

  lemma UNot(x: word)
    ensures U(Not(x)) == Not32(U(x))
  {
    hide U, Xor32, Not32, At, Has, WordOfMachine;
    var ones := WordOfMachine(0xffff_ffff);
    UXor(x, ones);
    forall i: nat | i < 32
      ensures At(ones, i)
    {
      BitOfU(ones, i);
      OnesHas(i);
    }
    SameWord(Not(x), Xor(x, ones));
    NotIsXor(U(x));
  }

  // --- Rotation and shift ---

  // ror of the source.
  function Rotr32(x: uint32, c: bv6): uint32
    requires 0 < c < 32
  {
    (x >> c) | (x << (32 - c))
  }

  function Turn(x: uint32): uint32 { Rotr32(x, 1) }

  lemma TurnMask(x: uint32, m: uint32)
    requires m <= 0x4000_0000
    ensures (((x >> 1) | (x << 31)) & m != 0) == (x & (m << 1) != 0)
  {
  }

  lemma LowMask(i: nat)
    requires i < 31
    ensures Mask(i) <= 0x4000_0000
  {
    hide Mask, Power2;
    Weights();
    assert IsIndex(i);
  }

  lemma TurnLow(x: uint32, i: nat)
    requires i < 31
    ensures Has(Turn(x), i) == Has(x, i + 1)
  {
    LowMask(i);
    TurnMask(x, Mask(i));
  }

  lemma TurnTop(x: uint32)
    ensures Has(Turn(x), 31) == Has(x, 0)
  {
    hide Mask, Power2;
    Weights();
    assert (((x >> 1) | (x << 31)) & 0x8000_0000 != 0) == (x & 1 != 0);
  }

  lemma UTurn(x: word)
    ensures U(Rotr(x, 1)) == Turn(U(x))
  {
    hide U, At, Has, Turn;
    forall i: nat | i < 32
      ensures Has(Turn(U(x)), i) == At(Rotr(x, 1), i)
    {
      BitOfU(x, (i + 1) % 32);
      if i < 31 {
        TurnLow(U(x), i);
      } else {
        TurnTop(U(x));
      }
    }
    UFromBits(Rotr(x, 1), Turn(U(x)));
  }

  lemma RotateOn(x: uint32, c: bv6)
    requires 0 < c < 31
    ensures Rotr32(x, c + 1) == Turn(Rotr32(x, c))
  {
  }

  lemma OneLess(c: bv6)
    requires 0 < c < 32
    ensures c as nat == (c - 1) as nat + 1
  {
  }

  lemma RotrStep(x: word, n: nat, c: bv6)
    requires 0 < c < 31 && U(Rotr(x, n)) == Rotr32(U(x), c)
    ensures U(Rotr(x, n + 1)) == Rotr32(U(x), c + 1)
  {
    hide U, At, Rotr32, Turn;
    RotateOn(U(x), c);
    UTurn(Rotr(x, n));
    SameWord(Rotr(x, n + 1), Rotr(Rotr(x, n), 1));
  }

  lemma {:induction false} URotr(x: word, c: bv6)
    requires 0 < c < 32
    ensures U(Rotr(x, c as nat)) == Rotr32(U(x), c)
    decreases c
  {
    hide U, Rotr, Rotr32, Turn;
    if c == 1 {
      UTurn(x);
      TurnIs(U(x));
    } else {
      URotr(x, c - 1);
      OneLess(c);
      RotrStep(x, (c - 1) as nat, c - 1);
    }
  }

  lemma TurnIs(x: uint32)
    ensures Turn(x) == Rotr32(x, 1)
  {
  }

  // --- Shift to the right ---

  lemma LastMask()
    ensures Mask(31) == 0x8000_0000
  {
    hide Mask, Power2;
    Weights();
  }

  lemma HalfTop(x: uint32)
    ensures Half(x) & 0x8000_0000 == 0
  {
  }

  lemma UHalf(x: word)
    ensures U(Shr(x, 1)) == Half(U(x))
  {
    hide U, At, Half, Mask;
    forall i: nat | i < 32
      ensures Has(Half(U(x)), i) == At(Shr(x, 1), i)
    {
      if i < 31 {
        BitOfU(x, i + 1);
        HasUp(U(x), i);
      } else {
        LastMask();
        HalfTop(U(x));
      }
    }
    UFromBits(Shr(x, 1), Half(U(x)));
  }

  function Shr32(x: uint32, c: bv6): uint32
    requires c <= 32
  {
    x >> c
  }

  lemma ShiftOn(x: uint32, c: bv6)
    requires 0 < c < 32
    ensures Shr32(x, c) == Half(Shr32(x, c - 1))
  {
  }

  lemma NoShift(x: word)
    ensures Shr32(U(x), 0) == U(x)
  {
  }

  lemma {:induction false} UShr(x: word, c: bv6)
    requires c < 32
    ensures U(Shr(x, c as nat)) == Shr32(U(x), c)
    decreases c
  {
    hide U, Shr32, Half, At;
    if c == 0 {
      NoShift(x);
      SameWord(x, Shr(x, 0));
    } else {
      UShr(x, c - 1);
      OneLess(c);
      ShiftOn(U(x), c);
      var n := (c - 1) as nat;
      UHalf(Shr(x, n));
      SameWord(Shr(x, n + 1), Shr(Shr(x, n), 1));
    }
  }

  // --- Bytes ---

  function Join32(x: uint32, b: uint32): uint32 { (x << 8) | b }

  lemma JoinLow(x: uint32, b: uint32, m: uint32)
    requires m <= 0x80
    ensures (((x << 8) | b) & m != 0) == (b & m != 0)
  {
  }

  lemma JoinHigh(x: uint32, b: uint32, m: uint32)
    requires b <= 0xff && m <= 0x0080_0000
    ensures (((x << 8) | b) & (m << 8) != 0) == (x & m != 0)
  {
  }

  lemma ByteFits(b: byte)
    ensures U(b as word) <= 0xff
  {
  }

  lemma EightUp(i: nat)
    requires i < 24
    ensures Mask(i) <= 0x0080_0000 && Mask(i + 8) == Mask(i) << 8
  {
    hide Mask, Power2;
    Weights();
    assert IsIndex(i);
  }

  lemma LowMasks(i: nat)
    requires i < 8
    ensures Mask(i) <= 0x80
  {
    hide Mask, Power2;
    Weights();
    assert IsIndex(i);
  }

  lemma JoinHas(x: uint32, b: uint32, i: nat)
    requires i < 32 && b <= 0xff
    ensures Has(Join32(x, b), i) == if i < 8 then Has(b, i) else Has(x, i - 8)
  {
    if i < 8 {
      LowMasks(i);
      JoinLow(x, b, Mask(i));
    } else {
      EightUp(i - 8);
      JoinHigh(x, b, Mask(i - 8));
    }
  }

  // Shifting a number up and putting a byte below it.
  lemma UJoin(high: word, low: byte, w: word)
    requires w as nat == 256 * high as nat + low as nat
    ensures U(w) == Join32(U(high), U(low as word))
  {
    hide U, Has, Join32;
    ByteFits(low);
    Powers2();
    var h, l := high as nat, low as nat;
    forall i: nat | i < 32
      ensures Has(Join32(U(high), U(low as word)), i) == At(w, i)
    {
      JoinHas(U(high), U(low as word), i);
      BitOfDigits(h, l, 8, i);
      if i < 8 {
        BitOfU(low as word, i);
      } else {
        BitOfU(high, i - 8);
      }
    }
    UFromBits(w, Join32(U(high), U(low as word)));
  }

  // The big-endian word of the source: four bytes shifted into place.
  function Word32(b0: uint32, b1: uint32, b2: uint32, b3: uint32): uint32 {
    (b0 << 24) | (b1 << 16) | (b2 << 8) | b3
  }

  lemma Word32Joins(b0: uint32, b1: uint32, b2: uint32, b3: uint32)
    ensures Word32(b0, b1, b2, b3) == Join32(Join32(Join32(b0, b1), b2), b3)
  {
    assert (b0 << 24) | (b1 << 16) | (b2 << 8) | b3 == (((((b0 << 8) | b1) << 8) | b2) << 8) | b3;
  }

  lemma UWord(b0: byte, b1: byte, b2: byte, b3: byte, w: word)
    requires w as nat == FromBigEndian([b0, b1, b2, b3])
    ensures U(w) == Word32(U(b0 as word), U(b1 as word), U(b2 as word), U(b3 as word))
  {
    hide U, Join32, Word32;
    var w1 := (256 * b0 as int + b1 as int) as word;
    var w2 := (256 * w1 as int + b2 as int) as word;
    FourBytes(b0, b1, b2, b3);
    UJoin(b0 as word, b1, w1);
    UJoin(w1, b2, w2);
    UJoin(w2, b3, w);
    Word32Joins(U(b0 as word), U(b1 as word), U(b2 as word), U(b3 as word));
  }

  lemma FourBytes(b0: byte, b1: byte, b2: byte, b3: byte)
    ensures FromBigEndian([b0, b1, b2, b3]) ==
            256 * (256 * (256 * b0 as nat + b1 as nat) + b2 as nat) + b3 as nat
  {
    var s := [b0, b1, b2, b3];
    assert s[..3] == [b0, b1, b2] && s[..3][..2] == [b0, b1] && s[..3][..2][..1] == [b0];
    assert s[..3][..2][..1][..0] == [];
    assert FromBigEndian(s[..3][..2][..1]) == b0 as nat;
    assert FromBigEndian(s[..3][..2]) == 256 * b0 as nat + b1 as nat;
  }

  // --- The operators of std::uint32_t ---

  function BitAnd(x: word, y: word): (r: word)
    ensures r == And(x, y)
  {
    hide U, And32;
    UAnd(x, y);
    UInjective(WordOfMachine(And32(U(x), U(y))), And(x, y));
    WordOfMachine(And32(U(x), U(y)))
  }

  function BitXor(x: word, y: word): (r: word)
    ensures r == Xor(x, y)
  {
    hide U, Xor32;
    UXor(x, y);
    UInjective(WordOfMachine(Xor32(U(x), U(y))), Xor(x, y));
    WordOfMachine(Xor32(U(x), U(y)))
  }

  function BitNot(x: word): (r: word)
    ensures r == Not(x)
  {
    hide U, Not32;
    UNot(x);
    UInjective(WordOfMachine(Not32(U(x))), Not(x));
    WordOfMachine(Not32(U(x)))
  }

  function Ror(x: word, c: bv6): (r: word)
    requires 0 < c < 32
    ensures r == Rotr(x, c as nat)
  {
    hide U, Rotr32, Rotr;
    URotr(x, c);
    UInjective(WordOfMachine(Rotr32(U(x), c)), Rotr(x, c as nat));
    WordOfMachine(Rotr32(U(x), c))
  }

  function RightShift(x: word, c: bv6): (r: word)
    requires c < 32
    ensures r == Shr(x, c as nat)
  {
    hide U, Shr32, Shr;
    UShr(x, c);
    UInjective(WordOfMachine(Shr32(U(x), c)), Shr(x, c as nat));
    WordOfMachine(Shr32(U(x), c))
  }

  function BytesToWord(b0: byte, b1: byte, b2: byte, b3: byte): (r: word)
    ensures r as nat == FromBigEndian([b0, b1, b2, b3])
  {
    hide U, Word32, FromBigEndian;
    FourBytes(b0, b1, b2, b3);
    var w := FromBigEndian([b0, b1, b2, b3]) as word;
    UWord(b0, b1, b2, b3, w);
    UInjective(WordOfMachine(Word32(U(b0 as word), U(b1 as word), U(b2 as word), U(b3 as word))), w);
    WordOfMachine(Word32(U(b0 as word), U(b1 as word), U(b2 as word), U(b3 as word)))
  }
}
