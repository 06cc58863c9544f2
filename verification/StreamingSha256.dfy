/** The bundled SHA-256 of src/s3_reader.cpp: a class with a 64-byte buffer that is fed a message in
    arbitrary pieces, and its callers. Everything is proved against the one-shot `Fips180.Sha256`.
 */
module StreamingSha256 {
  import opened Bytes
  import opened Fips180
  import opened Machine
  import opened Words

  class Sha256State {
    const s: array<word>
    const buf: array<byte>
    var total: nat  // a std::uint64_t: kept modulo 2^64
    var n: nat
    ghost var fed: seq<byte>  // every byte passed to Update since construction
    ghost var blocks: nat     // how many full blocks that makes

    // The hash state covers the full blocks of what was fed; the buffer holds the rest.
    ghost predicate Valid()
      reads this, s, buf
    {
      && s.Length == 8 && buf.Length == 64
      && total == Wrap64(|fed|)
      && Split()
    }

    ghost predicate Split()
      requires s.Length == 8 && buf.Length == 64
      reads this, s, buf
    {
      && n < 64 && |fed| == 64 * blocks + n
      && Variables(s[..]) == HashBlocks(fed, blocks)
      && buf[..n] == fed[64 * blocks..]
    }

    constructor ()
      ensures Valid() && fed == [] && fresh(s) && fresh(buf)
    {
      s := new word[] [0x6a09e667, 0xbb67ae85, 0x3c6ef372, 0xa54ff53a, 0x510e527f, 0x9b05688c, 0x1f83d9ab, 0x5be0cd19];
      buf := new byte[64](_ => 0);
      total, n, fed, blocks := 0, 0, [], 0;
    }

    // The message schedule of the buffered block.
    method Schedule() returns (w: array<word>)
      requires buf.Length == 64
      ensures fresh(w) && w.Length == 64
      ensures forall k :: 0 <= k < 64 ==> w[k] == W(buf[..], k)
    {
      hide WordAt, Scheduled, BytesToWord, FromBigEndian;
      ghost var p := buf[..];
      w := new word[64];
      for i := 0 to 16
        invariant forall k :: 0 <= k < i ==> w[k] == W(p, k)
      {
        w[i] := BytesToWord(buf[4 * i], buf[4 * i + 1], buf[4 * i + 2], buf[4 * i + 3]);
        WordOfBytes(p, i);
      }
      for i := 16 to 64
        invariant forall k :: 0 <= k < i ==> w[k] == W(p, k)
      {
        w[i] := Expand(w[i - 16], w[i - 15], w[i - 7], w[i - 2]);
      }
    }

    // Mixes the buffered block into the state.
    method Block()
      requires s.Length == 8 && buf.Length == 64
      modifies s
      ensures Variables(s[..]) == Compress(Variables(old(s[..])), buf[..])
    {
      hide Add, Round, Scheduled, WordAt, RoundConstant;
      ghost var p := buf[..];
      var w := Schedule();
      assert buf[..] == p;
      var a, b, c, d, e, f, g, h := s[0], s[1], s[2], s[3], s[4], s[5], s[6], s[7];
      for i := 0 to 64
        invariant s[..] == old(s[..]) && forall k :: 0 <= k < 64 ==> w[k] == W(p, k)
        invariant Vars(a, b, c, d, e, f, g, h) == Rounds(Variables(old(s[..])), p, i)
      {
        a, b, c, d, e, f, g, h := Mix(a, b, c, d, e, f, g, h, RoundConstant(i), w[i]);
      }
      s[0], s[1], s[2], s[3] := Add(s[0], a), Add(s[1], b), Add(s[2], c), Add(s[3], d);
      s[4], s[5], s[6], s[7] := Add(s[4], e), Add(s[5], f), Add(s[6], g), Add(s[7], h);
    }

    // Copies `piece` behind the buffered bytes; a full buffer is mixed in and emptied.
    method Absorb(piece: seq<byte>)
      requires s.Length == 8 && buf.Length == 64 && Split() && n + |piece| <= 64
      modifies this`n, this`fed, this`blocks, s, buf
      ensures Split() && fed == old(fed) + piece
    {
      hide HashBlocks;
      forall i | 0 <= i < |piece| {
        buf[n + i] := piece[i];
      }
      n := n + |piece|;
      fed := fed + piece;
      assert buf[..n] == old(fed)[64 * blocks..] + piece == fed[64 * blocks..];
      HashBlocksOfPrefix(old(fed), piece, blocks);
      if n == 64 {
        Flush();
      }
    }

    method Flush()
      requires s.Length == 8 && buf.Length == 64 && n == 64 && |fed| == 64 * blocks + 64
      requires Variables(s[..]) == HashBlocks(fed, blocks) && buf[..64] == fed[64 * blocks..]
      modifies this`n, this`blocks, s
      ensures Split()
    {
      hide Compress, Variables;
      assert buf[..] == buf[..64] == fed[64 * blocks..64 * (blocks + 1)];
      Block();
      n, blocks := 0, blocks + 1;
    }

    // Feeds `p`, whatever its length and however full the buffer is.
    method Update(p: seq<byte>)
      requires Valid()
      modifies this, s, buf
      ensures Valid() && fed == old(fed) + p
    {
      hide HashBlocks, Wrap64;
      WrapAdd(|fed|, |p|);
      total := Wrap64(total + |p|);
      var at := 0;
      while at < |p|
        invariant at <= |p|
        invariant s.Length == 8 && buf.Length == 64
        invariant fed == old(fed) + p[..at]
        invariant total == Wrap64(|old(fed)| + |p|)
        invariant Split()
      {
        var take := 64 - n;
        if take > |p| - at {
          take := |p| - at;
        }
        Absorb(p[at..at + take]);
        TakeMore(old(fed), p, at, take);
        at := at + take;
      }
      assert p[..at] == p;
    }

    // The zero bytes behind the 0x80 byte, one at a time.
    method PadZeros(ghost m: seq<byte>)
      requires Valid() && fed == m + [0x80]
      modifies this, s, buf
      ensures Valid() && fed == m + [0x80] + Zeros(ZeroCount(|m|))
    {
      hide HashBlocks, Wrap64, Variables, ZeroCount;
      ghost var k := 0;
      while n != 56
        invariant Valid()
        invariant fed == m + [0x80] + Zeros(k) && k <= ZeroCount(|m|)
        decreases ZeroCount(|m|) - k
      {
        RoomIsAtFiftySix(|m|, k, blocks, n);
        Update([0]);
        assert Zeros(k + 1) == Zeros(k) + [0];
        k := k + 1;
      }
      RoomIsAtFiftySix(|m|, k, blocks, n);
    }

    // Pads as section 5.1.1 of FIPS 180-4 and returns the digest of everything fed.
    method Finish() returns (out: seq<byte>)
      requires Valid()
      modifies this, s, buf
      ensures out == Sha256(old(fed))
    {
      hide HashBlocks, Wrap64, Digest, Variables, BigEndian, ZeroCount, Zeros;
      ghost var m := fed;
      var bits := Wrap64(total * 8);
      WrapTimes8(|m|);
      Update([0x80]);
      PadZeros(m);
      var len := LengthBytes(bits);
      Update(len);
      assert fed == Pad(m);
      NoBytesLeft(|fed|, blocks, n);
      out := Emit();
    }

    // The eight state words, each most significant byte first.
    method Emit() returns (out: seq<byte>)
      requires s.Length == 8
      ensures out == Digest(Variables(s[..]))
    {
      hide WordBytes;
      out := [];
      for i := 0 to 8
        invariant |out| == 4 * i
        invariant forall j :: 0 <= j < i ==> out[4 * j..4 * j + 4] == WordBytes(s[j])
      {
        var bytes := BytesOf(s[i]);
        out := out + bytes;
      }
      DigestFromWords(s[..], out);
    }
  }

  lemma WordOfBytes(block: seq<byte>, t: nat)
    requires |block| == 64 && t < 16
    ensures BytesToWord(block[4 * t], block[4 * t + 1], block[4 * t + 2], block[4 * t + 3]) == WordAt(block, t)
  {
    hide BytesToWord, FromBigEndian;
    var s := [block[4 * t], block[4 * t + 1], block[4 * t + 2], block[4 * t + 3]];
    assert s == block[4 * t..4 * t + 4];
  }

  // A state word as finish writes it.
  method BytesOf(w: word) returns (r: seq<byte>)
    ensures r == WordBytes(w)
  {
    r := [LowByte(RightShift(w, 24)), LowByte(RightShift(w, 16)), LowByte(RightShift(w, 8)), LowByte(w)];
    ShiftsDivide(w);
    BytesByDivision(w as nat);
  }

  lemma ShiftsDivide(w: word)
    ensures RightShift(w, 8) as nat == w as nat / 0x100
    ensures RightShift(w, 16) as nat == w as nat / 0x1_0000
    ensures RightShift(w, 24) as nat == w as nat / 0x100_0000
  {
    hide RightShift, Shr;
    Powers2();
    assert Power2(16) == 0x1_0000 && Power2(24) == 0x100_0000;
    ShrDivides(w, 8, w as nat / 0x100, w as nat % 0x100);
    ShrDivides(w, 16, w as nat / 0x1_0000, w as nat % 0x1_0000);
    ShrDivides(w, 24, w as nat / 0x100_0000, w as nat % 0x100_0000);
  }

  // Conversion to an unsigned char.
  function LowByte(w: word): byte { (w as int % 256) as byte }

  lemma BytesByDivision(n: nat)
    ensures BigEndian(n, 4) == [(n / 0x100_0000 % 256) as byte, (n / 0x1_0000 % 256) as byte,
                                (n / 0x100 % 256) as byte, (n % 256) as byte]
  {
    assert n / 256 / 256 == n / 0x1_0000 && n / 256 / 256 / 256 == n / 0x100_0000;
    var n1 := n / 256;
    var n2 := n1 / 256;
    var n3 := n2 / 256;
    assert BigEndian(n3, 1) == BigEndian(n3 / 256, 0) + [(n3 % 256) as byte] == [(n3 % 256) as byte];
    assert BigEndian(n2, 2) == [(n3 % 256) as byte, (n2 % 256) as byte];
    assert BigEndian(n1, 3) == [(n3 % 256) as byte, (n2 % 256) as byte, (n1 % 256) as byte];
  }

  lemma TakeMore(before: seq<byte>, p: seq<byte>, at: nat, take: nat)
    requires at + take <= |p|
    ensures before + p[..at] + p[at..at + take] == before + p[..at + take]
  {
  }

  // The eight bytes of the length field.
  method LengthBytes(bits: nat) returns (len: seq<byte>)
    ensures len == BigEndian(bits, 8)
  {
    len := [];
    for i := 0 to 8
      invariant len == BigEndian(ShiftRight8(bits, 8 - i), i)
    {
      ShiftRight8Step(bits, 7 - i);
      len := len + [(ShiftRight8(bits, 7 - i) % 256) as byte];
    }
  }

  lemma NoBytesLeft(len: nat, blocks: nat, n: nat)
    requires len % 64 == 0 && n < 64 && len == 64 * blocks + n
    ensures n == 0 && blocks == len / 64
  {
  }

  // The zero bytes leave room for the length field exactly when the buffer holds 56 bytes.
  lemma RoomIsAtFiftySix(len: nat, k: nat, blocks: nat, n: nat)
    requires n < 64 && len + 1 + k == 64 * blocks + n
    ensures LeavesRoom(len, k) <==> n == 56
  {
  }

  // The schedule word that follows from the ones 16, 15, 7 and 2 places before it.
  method Expand(w16: word, w15: word, w7: word, w2: word) returns (r: word)
    ensures r == Scheduled(w16, w15, w7, w2)
  {
    hide Add, Xor, Shr, Rotr;
    hide BitXor, Ror, RightShift;
    var s0 := BitXor(BitXor(Ror(w15, 7), Ror(w15, 18)), RightShift(w15, 3));
    var s1 := BitXor(BitXor(Ror(w2, 17), Ror(w2, 19)), RightShift(w2, 10));
    AddReverses(w16, s0, w7, s1);
    r := Add(Add(Add(w16, s0), w7), s1);
  }

  lemma AddReverses(a: word, b: word, c: word, d: word)
    ensures Add(Add(Add(a, b), c), d) == Add(Add(Add(d, c), b), a)
  {
    hide Add;
    AddCommutes(a, b);
    AddAssociates(b, a, c);
    AddCommutes(a, c);
    AddAssociates(b, c, a);
    AddCommutes(b, c);
    AddCommutes(Add(Add(c, b), a), d);
    AddAssociates(d, Add(c, b), a);
    AddAssociates(d, c, b);
  }

  lemma AddCommutes(a: word, b: word)
    ensures Add(a, b) == Add(b, a)
  {
  }

  lemma AddAssociates(a: word, b: word, c: word)
    ensures Add(Add(a, b), c) == Add(a, Add(b, c))
  {
    hide Add;
    AddIs(a, b);
    AddIs(b, c);
    AddIs(Add(a, b), c);
    AddIs(a, Add(b, c));
  }

  // Addition drops at most one carry.
  lemma AddIs(a: word, b: word)
    ensures var sum := a as int + b as int;
      Add(a, b) as int == if sum < 0x1_0000_0000 then sum else sum - 0x1_0000_0000
  {
  }

  // The body of the 64-round loop: the working variables are updated in place, last one first.
  method Mix(a0: word, b0: word, c0: word, d0: word, e0: word, f0: word, g0: word, h0: word, k: word, w: word)
    returns (a: word, b: word, c: word, d: word, e: word, f: word, g: word, h: word)
    ensures Vars(a, b, c, d, e, f, g, h) == Round(Vars(a0, b0, c0, d0, e0, f0, g0, h0), k, w)
  {
    hide Add, Xor, And, Not, Rotr;
    hide BitXor, BitAnd, BitNot, Ror;
    a, b, c, d, e, f, g, h := a0, b0, c0, d0, e0, f0, g0, h0;
    var sum1 := BitXor(BitXor(Ror(e, 6), Ror(e, 11)), Ror(e, 25));
    var ch := BitXor(BitAnd(e, f), BitAnd(BitNot(e), g));
    var t1 := Add(Add(Add(Add(h, sum1), ch), k), w);
    var sum0 := BitXor(BitXor(Ror(a, 2), Ror(a, 13)), Ror(a, 22));
    var maj := BitXor(BitXor(BitAnd(a, b), BitAnd(a, c)), BitAnd(b, c));
    var t2 := Add(sum0, maj);
    h := g;
    g := f;
    f := e;
    e := Add(d, t1);
    d := c;
    c := b;
    b := a;
    a := Add(t1, t2);
  }

  function Variables(s: seq<word>): Vars
    requires |s| == 8
  {
    Vars(s[0], s[1], s[2], s[3], s[4], s[5], s[6], s[7])
  }

  lemma DigestFromWords(hash: seq<word>, out: seq<byte>)
    requires |hash| == 8 && |out| == 32
    requires forall j :: 0 <= j < 8 ==> out[4 * j..4 * j + 4] == WordBytes(hash[j])
    ensures out == Digest(Variables(hash))
  {
    hide WordBytes;
    var d := Digest(Variables(hash));
    forall j | 0 <= j < 8
      ensures d[4 * j..4 * j + 4] == out[4 * j..4 * j + 4]
    {
    }
    forall i | 0 <= i < 32
      ensures d[i] == out[i]
    {
      var j := i / 4;
      assert d[i] == d[4 * j..4 * j + 4][i - 4 * j];
      assert out[i] == out[4 * j..4 * j + 4][i - 4 * j];
    }
  }

  function Concat(pieces: seq<seq<byte>>): seq<byte> {
    if |pieces| == 0 then [] else Concat(pieces[..|pieces| - 1]) + pieces[|pieces| - 1]
  }

  /** However a message is cut into Update calls, the digest is the one-shot SHA-256 of the whole. */
  method HashPieces(pieces: seq<seq<byte>>) returns (out: seq<byte>)
    ensures out == Sha256(Concat(pieces))
  {
    hide Sha256, Sha256State.Valid;
    var h := new Sha256State();
    for i := 0 to |pieces|
      invariant h.Valid() && h.fed == Concat(pieces[..i])
      invariant fresh(h) && fresh(h.s) && fresh(h.buf)
    {
      assert pieces[..i + 1][..i] == pieces[..i];
      h.Update(pieces[i]);
    }
    assert pieces[..|pieces|] == pieces;
    out := h.Finish();
  }

  method Sha256Raw(data: seq<byte>) returns (out: seq<byte>)
    ensures out == Sha256(data)
  {
    hide Sha256;
    var h := new Sha256State();
    h.Update(data);
    assert [] + data == data;
    out := h.Finish();
  }

  // Two lower-case hexadecimal digits a byte.
  function Hex(data: seq<byte>): (r: string)
    ensures |r| == 2 * |data|
  {
    if |data| == 0 then ""
    else Hex(data[..|data| - 1]) + [HexDigit(data[|data| - 1] as nat / 16), HexDigit(data[|data| - 1] as nat % 16)]
  }

  lemma {:induction false} HexAt(data: seq<byte>, i: nat)
    requires i < |data|
    ensures Hex(data)[2 * i] == HexDigit(data[i] as nat / 16) && Hex(data)[2 * i + 1] == HexDigit(data[i] as nat % 16)
  {
    hide HexDigit;
    if i < |data| - 1 {
      HexAt(data[..|data| - 1], i);
    }
  }

  // The value of a lower-case hexadecimal digit, and 16 for any other character.
  function LowerHexValue(c: char): nat {
    if '0' <= c <= '9' then c as nat - '0' as nat
    else if 'a' <= c <= 'f' then 10 + (c as nat - 'a' as nat)
    else 16
  }

  /** The digits of byte i read as a number in base 16 are that byte. */
  lemma HexReadsBack(data: seq<byte>, i: nat)
    requires i < |data|
    ensures var high, low := LowerHexValue(Hex(data)[2 * i]), LowerHexValue(Hex(data)[2 * i + 1]);
      high < 16 && low < 16 && 16 * high + low == data[i] as nat
  {
    hide HexDigit, LowerHexValue;
    HexAt(data, i);
    DigitReadsBack(data[i] as nat / 16);
    DigitReadsBack(data[i] as nat % 16);
  }

  lemma DigitReadsBack(v: nat)
    requires v < 16
    ensures LowerHexValue(HexDigit(v)) == v
  {
  }

  // Different byte strings have different hexadecimal forms.
  lemma HexInjective(a: seq<byte>, b: seq<byte>)
    requires Hex(a) == Hex(b)
    ensures a == b
  {
    hide HexDigit;
    assert |a| == |b|;
    forall i | 0 <= i < |a|
      ensures a[i] == b[i]
    {
      HexAt(a, i);
      HexAt(b, i);
      HexDigitInjective(a[i] as nat / 16, b[i] as nat / 16);
      HexDigitInjective(a[i] as nat % 16, b[i] as nat % 16);
    }
  }

  method HexEncode(data: seq<byte>) returns (out: string)
    ensures out == Hex(data)
  {
    hide HexDigit;
    out := "";
    for i := 0 to |data|
      invariant out == Hex(data[..i])
    {
      assert data[..i + 1][..i] == data[..i];
      out := out + [HexDigit(data[i] as nat / 16), HexDigit(data[i] as nat % 16)];
    }
    assert data[..|data|] == data;
  }

  method Sha256Hex(data: seq<byte>) returns (out: string)
    ensures out == Hex(Sha256(data))
  {
    hide Sha256;
    var digest := Sha256Raw(data);
    out := HexEncode(digest);
  }

  // What reading at most `len` bytes from `offset` gives.
  function Slice(file: seq<byte>, offset: nat, len: nat): seq<byte> {
    if offset + len <= |file| then file[offset..offset + len]
    else if offset <= |file| then file[offset..] else []
  }

  /** The hash of `len` bytes of a file from `offset`, read in chunks of at most 1 MiB. `freads(k)` says
      whether the k-th fread works; a read past the end of the file is short and fails too. */
  method Sha256FileHex(file: seq<byte>, seekWorks: bool, freads: nat -> bool, offset: nat, len: nat)
    returns (ok: bool, out: string)
    ensures ok <==> seekWorks && (len > 0 ==> offset + len <= |file|) &&
                    forall k: nat :: k * 0x10_0000 < len ==> freads(k)
    ensures ok ==> out == Hex(Sha256(Slice(file, offset, len)))
  {
    hide Sha256, Hex, Sha256State.Valid;
    if !seekWorks {
      return false, "";
    }
    var h := new Sha256State();
    var left, at, k := len, offset, 0;
    ok, out := true, "";
    while left > 0
      invariant h.Valid() && fresh(h) && fresh(h.s) && fresh(h.buf)
      invariant ok && 0 <= left <= len && at == offset + (len - left)
      invariant len > left ==> at <= |file|
      invariant h.fed == if len == left then [] else file[offset..at]
      invariant left > 0 ==> k * 0x10_0000 == len - left
      invariant left == 0 ==> len <= k * 0x10_0000
      invariant forall j: nat :: j < k ==> freads(j)
    {
      var n := if left < 0x10_0000 then left else 0x10_0000;
      if |file| < at + n || !freads(k) {
        ok := false;
        break;
      }
      h.Update(file[at..at + n]);
      assert file[offset..at + n] == file[offset..at] + file[at..at + n];
      left, at, k := left - n, at + n, k + 1;
    }
    if ok {
      assert left == 0 && h.fed == Slice(file, offset, len);
      forall j: nat | j * 0x10_0000 < len
        ensures freads(j)
      {
        assert j < k;
      }
    } else {
      assert k * 0x10_0000 < len;
    }
    var digest := h.Finish();
    if ok {
      out := HexEncode(digest);
    }
  }

  /** HMAC-SHA256 over the hash above, as RFC 2104 defines it. */
  method HmacSha256Raw(key: seq<byte>, msg: seq<byte>) returns (out: seq<byte>)
    ensures out == Hmac(key, msg)
  {
    hide Sha256, Xor, BitXor;
    var k := new byte[64](_ => 0);
    if |key| > 64 {
      var short := Sha256Raw(key);
      forall i | 0 <= i < 32 {
        k[i] := short[i];
      }
    } else {
      forall i | 0 <= i < |key| {
        k[i] := key[i];
      }
    }
    assert k[..] == KeyBlock(key);
    var ipad := new byte[64](_ => 0);
    var opad := new byte[64](_ => 0);
    for i := 0 to 64
      invariant k[..] == KeyBlock(key)
      invariant forall j :: 0 <= j < i ==> ipad[j] == XorByte(k[j], 0x36) && opad[j] == XorByte(k[j], 0x5c)
    {
      ipad[i] := LowByte(BitXor(k[i] as word, 0x36));
      opad[i] := LowByte(BitXor(k[i] as word, 0x5c));
      XorFits(k[i] as word, 0x36);
      XorFits(k[i] as word, 0x5c);
    }
    assert ipad[..] == XorBytes(KeyBlock(key), 0x36);
    assert opad[..] == XorBytes(KeyBlock(key), 0x5c);
    var inner := Sha256Raw(ipad[..] + msg);
    out := Sha256Raw(opad[..] + inner);
  }
}
