/** The 32-bit words of FIPS 180-4 and their operations (sections 2.2.2 and 3.2), bit by bit. */
module Words {
  import opened Bytes

  // The i-th bit of a number, counted from the least significant.
  predicate Bit(x: nat, i: nat) {
    if i == 0 then x % 2 == 1 else Bit(x / 2, i - 1)
  }

  function BitValue(b: bool): nat { if b then 1 else 0 }

  // The number with these bits, least significant first.
  function FromBits(bits: seq<bool>): nat {
    if bits == [] then 0 else BitValue(bits[0]) + 2 * FromBits(bits[1..])
  }

  function Power2(k: nat): (r: nat)
    ensures r > 0
  {
    if k == 0 then 1 else 2 * Power2(k - 1)
  }

  lemma Powers2()
    ensures Power2(8) == 0x100 && Power2(32) == 0x1_0000_0000
  {
    assert Power2(8) == 256;
    assert Power2(16) == 256 * Power2(8);
    assert Power2(24) == 256 * Power2(16);
    assert Power2(32) == 256 * Power2(24);
  }

  lemma {:induction false} FromBitsFits(bits: seq<bool>)
    ensures FromBits(bits) < Power2(|bits|)
  {
    if bits != [] {
      FromBitsFits(bits[1..]);
    }
  }

  lemma {:induction false} BitsReadBack(bits: seq<bool>, i: nat)
    requires i < |bits|
    ensures Bit(FromBits(bits), i) == bits[i]
  {
    var x := FromBits(bits);
    assert x / 2 == FromBits(bits[1..]) && x % 2 == BitValue(bits[0]);
    if i > 0 {
      BitsReadBack(bits[1..], i - 1);
    }
  }

  // The lowest n bits agree.
  predicate SameBits(x: nat, y: nat, n: nat) {
    forall i: nat :: i < n ==> Bit(x, i) == Bit(y, i)
  }

  /** A number below 2^n is determined by its n bits. */
  lemma {:induction false} BitsDetermine(x: nat, y: nat, n: nat)
    requires x < Power2(n) && y < Power2(n) && SameBits(x, y, n)
    ensures x == y
  {
    if n > 0 {
      assert Bit(x, 0) == Bit(y, 0);
      forall i: nat | i < n - 1
        ensures Bit(x / 2, i) == Bit(y / 2, i)
      {
        assert Bit(x, i + 1) == Bit(y, i + 1);
      }
      BitsDetermine(x / 2, y / 2, n - 1);
    }
  }

  lemma {:induction false} NoBitBeyond(x: nat, n: nat, i: nat)
    requires x < Power2(n) && n <= i
    ensures !Bit(x, i)
  {
    if n == 0 {
      assert x == 0;
      if i > 0 {
        NoBitBeyond(0, 0, i - 1);
      }
    } else {
      NoBitBeyond(x / 2, n - 1, i - 1);
    }
  }

  // Digits in base 2^k: the low one holds the bits below k, the high one the others.
  lemma {:induction false} BitOfDigits(high: nat, low: nat, k: nat, i: nat)
    requires low < Power2(k)
    ensures Bit(high * Power2(k) + low, i) == if i < k then Bit(low, i) else Bit(high, i - k)
  {
    var x := high * Power2(k) + low;
    if k > 0 {
      assert x == 2 * (high * Power2(k - 1)) + low;
      assert x / 2 == high * Power2(k - 1) + low / 2 && x % 2 == low % 2;
      if i > 0 {
        BitOfDigits(high, low / 2, k - 1, i - 1);
      }
    }
  }

  lemma {:induction false} BitByDivision(x: nat, i: nat)
    ensures Bit(x, i) == (x / Power2(i) % 2 == 1)
  {
    if i > 0 {
      BitByDivision(x / 2, i - 1);
      DivideTwice(x, Power2(i - 1));
    }
  }

  lemma DivideTwice(x: nat, d: nat)
    requires d > 0
    ensures x / 2 / d == x / (2 * d)
  {
    var q, r := x / 2 / d, x / 2 % d;
    assert x / 2 == d * q + r;
    DivisionUnique(x, 2 * d, q, 2 * r + x % 2);
  }

  // --- Words ---

  predicate At(w: word, i: nat) { Bit(w as nat, i) }

  function WordOf(bits: seq<bool>): (r: word)
    requires |bits| == 32
    ensures forall i: nat :: i < 32 ==> At(r, i) == bits[i]
  {
    FromBitsFits(bits);
    Powers2();
    assert forall i: nat :: i < 32 ==> Bit(FromBits(bits), i) == bits[i] by {
      forall i: nat | i < 32
        ensures Bit(FromBits(bits), i) == bits[i]
      {
        BitsReadBack(bits, i);
      }
    }
    FromBits(bits) as word
  }

  lemma SameWord(x: word, y: word)
    requires forall i: nat :: i < 32 ==> At(x, i) == At(y, i)
    ensures x == y
  {
    var m, n := x as nat, y as nat;
    Powers2();
    forall i: nat | i < 32
      ensures Bit(m, i) == Bit(n, i)
    {
      assert At(x, i) == At(y, i);
    }
    BitsDetermine(m, n, 32);
  }

  function Add(x: word, y: word): word { ((x as int + y as int) % 0x1_0000_0000) as word }

  function Xor(x: word, y: word): (r: word)
    ensures forall i: nat :: i < 32 ==> At(r, i) == (At(x, i) != At(y, i))
  {
    WordOf(seq(32, (i: nat) => At(x, i) != At(y, i)))
  }

  function And(x: word, y: word): (r: word)
    ensures forall i: nat :: i < 32 ==> At(r, i) == (At(x, i) && At(y, i))
  {
    WordOf(seq(32, (i: nat) => At(x, i) && At(y, i)))
  }

  function Not(x: word): (r: word)
    ensures forall i: nat :: i < 32 ==> At(r, i) == !At(x, i)
  {
    WordOf(seq(32, (i: nat) => !At(x, i)))
  }

  // Bit i of the result is bit i + c of x, and 0 when there is none.
  function Shr(x: word, c: nat): (r: word)
    ensures forall i: nat :: i < 32 ==> At(r, i) == (i + c < 32 && At(x, i + c))
  {
    WordOf(seq(32, (i: nat) => i + c < 32 && At(x, i + c)))
  }

  // Bit i of the result is bit i + c of x, counting on from bit 0 past bit 31.
  function Rotr(x: word, c: nat): (r: word)
    ensures forall i: nat :: i < 32 ==> At(r, i) == At(x, (i + c) % 32)
  {
    WordOf(seq(32, (i: nat) => At(x, (i + c) % 32)))
  }

  /** A shift to the right is the quotient by a power of two. */
  lemma ShrDivides(x: word, c: nat, q: nat, r: nat)
    requires x as nat == q * Power2(c) + r && r < Power2(c)
    ensures Shr(x, c) as nat == q
  {
    hide Bit, Power2, Shr;
    var n, s := x as nat, Shr(x, c) as nat;
    Powers2();
    ProductAtLeast(q, Power2(c));
    forall i: nat | i < 32
      ensures Bit(s, i) == Bit(q, i)
    {
      assert At(Shr(x, c), i) == (i + c < 32 && At(x, i + c));
      BitOfDigits(q, r, c, i + c);
      if 32 <= i + c {
        NoBitBeyond(n, 32, i + c);
      }
    }
    BitsDetermine(s, q, 32);
  }

  lemma XorFits(x: word, y: word)
    requires x < 0x100 && y < 0x100
    ensures Xor(x, y) < 0x100
  {
    var a, b, r := x as nat, y as nat, Xor(x, y) as nat;
    Powers2();
    forall i: nat | i < 32
      ensures Bit(r, i) == Bit(r % 0x100, i)
    {
      BitOfDigits(r / 0x100, r % 0x100, 8, i);
      if 8 <= i {
        NoBitBeyond(a, 8, i);
        NoBitBeyond(b, 8, i);
        NoBitBeyond(r % 0x100, 8, i);
        assert At(Xor(x, y), i) == (At(x, i) != At(y, i));
      }
    }
    BitsDetermine(r, r % 0x100, 32);
  }
}
