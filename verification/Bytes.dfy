/** Bytes and the fixed-width arithmetic of the program. */
module Bytes {
  newtype byte = x: int | 0 <= x < 256

  newtype word = x: int | 0 <= x < 0x1_0000_0000  // a std::uint32_t

  // The value a std::uint64_t holds after x is stored in it.
  function Wrap64(x: nat): nat { x % 0x1_0000_0000_0000_0000 }

  lemma WrapUnique(x: nat, q: nat, r: nat)
    requires x == q * 0x1_0000_0000_0000_0000 + r && r < 0x1_0000_0000_0000_0000
    ensures Wrap64(x) == r
  {
  }

  lemma WrapAdd(x: nat, y: nat)
    ensures Wrap64(Wrap64(x) + y) == Wrap64(x + y)
  {
    var q := x / 0x1_0000_0000_0000_0000;
    var z := Wrap64(x) + y;
    var p := z / 0x1_0000_0000_0000_0000;
    WrapUnique(x + y, q + p, Wrap64(z));
  }

  lemma WrapTimes8(x: nat)
    ensures Wrap64(Wrap64(x) * 8) == Wrap64(8 * x)
  {
    var q := x / 0x1_0000_0000_0000_0000;
    var z := Wrap64(x) * 8;
    var p := z / 0x1_0000_0000_0000_0000;
    WrapUnique(8 * x, 8 * q + p, Wrap64(z));
  }

  // v >> 8 * k.
  function ShiftRight8(v: nat, k: nat): nat {
    if k == 0 then v else ShiftRight8(v / 256, k - 1)
  }

  lemma {:induction false} ShiftRight8Step(v: nat, k: nat)
    ensures ShiftRight8(v, k + 1) == ShiftRight8(v, k) / 256
  {
    if k > 0 {
      ShiftRight8Step(v / 256, k - 1);
    }
  }

  // `k` bytes, most significant first, of v modulo 256^k.
  function BigEndian(v: nat, k: nat): (r: seq<byte>)
    ensures |r| == k
  {
    if k == 0 then [] else BigEndian(v / 256, k - 1) + [(v % 256) as byte]
  }

  function FromBigEndian(s: seq<byte>): nat {
    if |s| == 0 then 0 else 256 * FromBigEndian(s[..|s| - 1]) + s[|s| - 1] as nat
  }

  function Pow256(k: nat): (r: nat)
    ensures r > 0
  {
    if k == 0 then 1 else 256 * Pow256(k - 1)
  }

  /** BigEndian is positional notation: reading the bytes back gives the number. */
  lemma {:induction false} BigEndianReadsBack(v: nat, k: nat)
    requires v < Pow256(k)
    ensures FromBigEndian(BigEndian(v, k)) == v
  {
    if k > 0 {
      var s := BigEndian(v, k);
      assert s[..k - 1] == BigEndian(v / 256, k - 1);
      assert s[k - 1] as nat == v % 256;
      BigEndianReadsBack(v / 256, k - 1);
    }
  }

  function Zeros(k: nat): (r: seq<byte>)
    ensures |r| == k
  {
    seq(k, _ => 0)
  }

  lemma {:induction false} ProductAtLeast(m: nat, d: nat)
    requires d >= 1
    ensures m * d >= m
  {
    if d > 1 {
      ProductAtLeast(m, d - 1);
      assert m * d == m * (d - 1) + m;
    }
  }

  // A quotient and a remainder are unique.
  lemma DivisionUnique(x: nat, m: nat, q: nat, r: nat)
    requires m > 0 && x == m * q + r && r < m
    ensures x / m == q && x % m == r
  {
    var p, s := x / m, x % m;
    assert x == m * p + s;
    if p > q {
      ProductAtLeast(m, p - q);
    } else if q > p {
      ProductAtLeast(m, q - p);
    }
  }

  lemma ProductIsMultiple(m: nat, q: nat)
    requires m > 0
    ensures (m * q) % m == 0
  {
    DivisionUnique(m * q, m, q, 0);
  }

  // A lower-case hexadecimal digit.
  function HexDigit(v: nat): char
    requires v < 16
  {
    "0123456789abcdef"[v]
  }

  lemma HexDigitInjective(x: nat, y: nat)
    requires x < 16 && y < 16 && HexDigit(x) == HexDigit(y)
    ensures x == y
  {
  }
}
