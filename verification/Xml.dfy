/** The XML text layer: escaping, entity references and UTF-8. */
module Xml {
  import opened Bytes
  import opened Text

  // --- Escaping ---

  function EscapeChar(c: char): string {
    if c == '&' then "&amp;"
    else if c == '<' then "&lt;"
    else if c == '>' then "&gt;"
    else if c == '"' then "&quot;"
    else if c == '\'' then "&apos;"
    else [c]
  }

  function Escape(s: string): string {
    if s == "" then "" else EscapeChar(s[0]) + Escape(s[1..])
  }

  method XmlEscape(s: string) returns (out: string)
    ensures out == Escape(s)
  {
    hide EscapeChar;
    out := "";
    for i := 0 to |s|
      invariant out + Escape(s[i..]) == Escape(s)
    {
      assert s[i..][1..] == s[i + 1..];
      Assoc(out, EscapeChar(s[i]), Escape(s[i + 1..]));
      out := out + EscapeChar(s[i]);
    }
    assert out + Escape("") == out;
  }

  predicate NoMarkup(s: string) {
    forall i :: 0 <= i < |s| ==> s[i] != '<' && s[i] != '>'
  }

  // Text that can stand between two tags.
  predicate IsText(s: string) {
    forall i :: 0 <= i < |s| ==> s[i] != '<'
  }

  // Escaped text holds neither bracket.
  lemma {:induction false} EscapeHidesMarkup(s: string)
    ensures NoMarkup(Escape(s))
  {
    if s != "" {
      EscapeHidesMarkup(s[1..]);
    }
  }

  // --- UTF-8, section 3 of RFC 3629 ---

  function Utf8(cp: nat): (r: string)
    requires cp <= 0x10FFFF
    ensures 1 <= |r| <= 4 && forall i :: 0 <= i < |r| ==> r[i] as nat < 256
  {
    if cp < 0x80 then [cp as char]
    else if cp < 0x800 then [(0xC0 + cp / 0x40) as char, Tail(cp)]
    else if cp < 0x10000 then [(0xE0 + cp / 0x1000) as char, Tail(cp / 0x40), Tail(cp)]
    else [(0xF0 + cp / 0x40000) as char, Tail(cp / 0x1000), Tail(cp / 0x40), Tail(cp)]
  }

  // 10xxxxxx, carrying the six low bits.
  function Tail(bits: nat): char { (0x80 + bits % 0x40) as char }

  predicate IsTail(c: char) { 0x80 <= c as nat < 0xC0 }

  function TailBits(c: char): nat
    requires IsTail(c)
  {
    c as nat - 0x80
  }

  // A decoder that checks the marks of every byte, and takes no number in a longer form than it needs and no
  // surrogate.
  function FromUtf8(s: string): Option<nat> {
    if |s| == 1 && s[0] as nat < 0x80 then Some(s[0] as nat)
    else if |s| == 2 && 0xC0 <= s[0] as nat < 0xE0 && IsTail(s[1]) then
      Ranged((s[0] as nat - 0xC0) * 0x40 + TailBits(s[1]), 0x80, 0x800)
    else if |s| == 3 && 0xE0 <= s[0] as nat < 0xF0 && IsTail(s[1]) && IsTail(s[2]) then
      var v := (s[0] as nat - 0xE0) * 0x1000 + TailBits(s[1]) * 0x40 + TailBits(s[2]);
      if IsSurrogate(v) then None else Ranged(v, 0x800, 0x1_0000)
    else if |s| == 4 && 0xF0 <= s[0] as nat < 0xF8 && IsTail(s[1]) && IsTail(s[2]) && IsTail(s[3]) then
      Ranged((s[0] as nat - 0xF0) * 0x4_0000 + TailBits(s[1]) * 0x1000 + TailBits(s[2]) * 0x40 + TailBits(s[3]),
             0x1_0000, 0x11_0000)
    else None
  }

  predicate IsSurrogate(v: nat) { 0xD800 <= v < 0xE000 }

  function Ranged(v: nat, low: nat, high: nat): Option<nat> {
    if low <= v < high then Some(v) else None
  }

  lemma TailReadsBack(bits: nat)
    ensures IsTail(Tail(bits)) && TailBits(Tail(bits)) == bits % 0x40
  {
  }

  /** The strict decoder reads a code point back exactly when it is no surrogate. */
  lemma Utf8ReadsBack(cp: nat)
    requires cp <= 0x10FFFF
    ensures FromUtf8(Utf8(cp)) == if IsSurrogate(cp) then None else Some(cp)
  {
    hide Tail, TailBits, IsTail;
    var six, twelve, eighteen := cp / 0x40, cp / 0x1000, cp / 0x4_0000;
    TailReadsBack(cp);
    TailReadsBack(six);
    TailReadsBack(twelve);
    SixBits(cp, six, twelve, eighteen);
  }

  lemma SixBits(cp: nat, six: nat, twelve: nat, eighteen: nat)
    requires six == cp / 0x40 && twelve == cp / 0x1000 && eighteen == cp / 0x4_0000
    ensures cp == six * 0x40 + cp % 0x40
    ensures six == twelve * 0x40 + six % 0x40
    ensures twelve == eighteen * 0x40 + twelve % 0x40
  {
  }

  /** And nothing else decodes to it: a string the decoder accepts is the UTF-8 form of what it reads. */
  lemma OnlyUtf8ReadsBack(s: string)
    requires FromUtf8(s).Some?
    ensures FromUtf8(s).value <= 0x10FFFF && Utf8(FromUtf8(s).value) == s
  {
    hide Tail, TailBits, IsTail;
    var cp := FromUtf8(s).value;
    var n := |s|;
    if n == 2 {
      TailIs(s[1], s[0] as nat - 0xC0);
    } else if n == 3 {
      var high := (s[0] as nat - 0xE0) * 0x40 + TailBits(s[1]);
      TailIs(s[1], s[0] as nat - 0xE0);
      TailIs(s[2], high);
    } else if n == 4 {
      var high := (s[0] as nat - 0xF0) * 0x40 + TailBits(s[1]);
      var higher := high * 0x40 + TailBits(s[2]);
      TailIs(s[1], s[0] as nat - 0xF0);
      TailIs(s[2], high);
      TailIs(s[3], higher);
    }
  }

  lemma TailIs(c: char, high: nat)
    requires IsTail(c)
    ensures var v := high * 0x40 + TailBits(c);
      v / 0x40 == high && Tail(v) == c && TailBits(c) < 0x40
  {
  }

  // --- Entity references, section 4.1 and section 4.6 of XML 1.0 ---

  predicate IsRefDigit(c: char, hex: bool) {
    '0' <= c <= '9' || (hex && ('a' <= c <= 'f' || 'A' <= c <= 'F'))
  }

  predicate RefDigits(s: string, hex: bool) {
    forall i :: 0 <= i < |s| ==> IsRefDigit(s[i], hex)
  }

  function RefDigitValue(c: char, hex: bool): (d: nat)
    requires IsRefDigit(c, hex)
    ensures d < if hex then 16 else 10
  {
    if c <= '9' then c as nat - '0' as nat
    else if 'a' <= c then c as nat - 'a' as nat + 10
    else c as nat - 'A' as nat + 10
  }

  // The number the digits of a reference denote.
  function RefValue(s: string, hex: bool): nat
    requires RefDigits(s, hex)
  {
    if s == "" then 0
    else RefValue(s[..|s| - 1], hex) * (if hex then 16 else 10) + RefDigitValue(s[|s| - 1], hex)
  }

  lemma {:induction false} RefPrefixIsNoLarger(s: string, hex: bool, k: nat)
    requires RefDigits(s, hex) && k <= |s|
    ensures RefValue(s[..k], hex) <= RefValue(s, hex)
  {
    if k == |s| {
      assert s[..k] == s;
    } else {
      RefPrefixIsNoLarger(s[..|s| - 1], hex, k);
      assert s[..|s| - 1][..k] == s[..k];
    }
  }

  predicate IsHexRef(ent: string) {
    |ent| > 1 && (ent[1] == 'x' || ent[1] == 'X')
  }

  // The text of the digits of "#..." or "#x...".
  function RefBody(ent: string): string
    requires ent != ""
  {
    if IsHexRef(ent) then ent[2..] else ent[1..]
  }

  // What an entity stands for; None for one that is left as it is.
  function Meaning(ent: string): Option<string> {
    if ent == "amp" then Some("&")
    else if ent == "lt" then Some("<")
    else if ent == "gt" then Some(">")
    else if ent == "quot" then Some("\"")
    else if ent == "apos" then Some("'")
    else if ent != "" && ent[0] == '#' then RefMeaning(ent)
    else None
  }

  function RefMeaning(ent: string): Option<string>
    requires ent != ""
  {
    var body, hex := RefBody(ent), IsHexRef(ent);
    if body != "" && RefDigits(body, hex) && RefValue(body, hex) <= 0x10FFFF
    then Some(Utf8(RefValue(body, hex))) else None
  }

  /** The digit loop. Its accumulator is a std::uint32_t: that `cp * base + d` stays a `word` is
      checked at the multiplication, because the loop stops at the first value above 0x10FFFF. */
  method NumericReference(ent: string) returns (r: Option<string>)
    requires ent != "" && ent[0] == '#'
    ensures r == RefMeaning(ent)
  {
    hide Utf8, RefDigitValue;
    var hex := IsHexRef(ent);
    var first := if hex then 2 else 1;
    var ok := |ent| > first;
    var cp: word := 0;
    var j := first;
    ghost var body := RefBody(ent);
    while ok && j < |ent|
      invariant first <= j <= |ent| && |body| == |ent| - first
      invariant ok ==> |ent| > first && RefDigits(body[..j - first], hex)
      invariant ok ==> cp as nat == RefValue(body[..j - first], hex) && cp <= 0x10FFFF
      invariant !ok ==> RefMeaning(ent) == None
    {
      var c := ent[j];
      ghost var k := j - first;
      assert body[k] == c && body[..k + 1][..k] == body[..k];
      if !IsRefDigit(c, hex) {
        ok := false;
        break;
      }
      assert RefDigits(body[..k + 1], hex);
      var d := RefDigitValue(c, hex) as word;
      cp := cp * (if hex then 16 else 10) + d;
      if cp > 0x10FFFF {
        ok := false;
        if RefDigits(body, hex) {
          RefPrefixIsNoLarger(body, hex, k + 1);
        }
      }
      j := j + 1;
    }
    if !ok {
      return None;
    }
    assert body[..|body|] == body;
    r := Some(Utf8(cp as nat));
  }

  method Decode(ent: string) returns (r: Option<string>)
    ensures r == Meaning(ent)
  {
    if ent == "amp" {
      r := Some("&");
    } else if ent == "lt" {
      r := Some("<");
    } else if ent == "gt" {
      r := Some(">");
    } else if ent == "quot" {
      r := Some("\"");
    } else if ent == "apos" {
      r := Some("'");
    } else if ent != "" && ent[0] == '#' {
      r := NumericReference(ent);
    } else {
      r := None;
    }
  }

  // --- Unescaping ---

  // The entity that starts at the '&' at the head of `s`, when its ';' is near enough.
  function EntityAtHead(s: string): Option<string>
    requires s != ""
  {
    var semi := Find(s, ";", 0);
    if semi.None? || semi.value == 0 || semi.value > 12 then None else Some(s[1..semi.value])
  }

  // What the text at the head of `s` decodes to, and how much of `s` that is.
  function Head(s: string): (r: (string, nat))
    requires s != ""
    ensures 1 <= r.1 <= |s|
  {
    var ent := EntityAtHead(s);
    if s[0] == '&' && ent.Some? && Meaning(ent.value).Some?
    then (Meaning(ent.value).value, |ent.value| + 2) else ([s[0]], 1)
  }

  function Unescape(s: string): string {
    if s == "" then "" else var (text, len) := Head(s); text + Unescape(s[len..])
  }

  // One step of the scan.
  method DecodeAt(s: string, i: nat) returns (text: string, next: nat)
    requires i < |s|
    ensures text == Head(s[i..]).0 && next == i + Head(s[i..]).1 && i < next <= |s|
  {
    hide Meaning;
    assert s[i..][0] == s[i];
    if s[i] != '&' {
      return [s[i]], i + 1;
    }
    var semi := Find(s, ";", i);
    FindInSuffix(s, ";", i, i);
    assert s[i..i + 1][0] == '&';
    if semi.None? || semi.value - i > 12 {
      return "&", i + 1;
    }
    var ent := s[i + 1..semi.value];
    assert s[i..][1..semi.value - i] == ent;
    var t := Decode(ent);
    if t.None? {
      return "&", i + 1;
    }
    return t.value, semi.value + 1;
  }

  method XmlUnescape(s: string) returns (out: string)
    ensures out == Unescape(s)
  {
    hide Head;
    out := "";
    var i := 0;
    while i < |s|
      invariant i <= |s|
      invariant out + Unescape(s[i..]) == Unescape(s)
    {
      var text, next := DecodeAt(s, i);
      assert s[i..][next - i..] == s[next..];
      Assoc(out, text, Unescape(s[next..]));
      out := out + text;
      i := next;
    }
    assert out + Unescape("") == out;
  }

  /** Unescaping inverts escaping, on every string. */
  lemma {:induction false} UnescapeInvertsEscape(s: string)
    ensures Unescape(Escape(s)) == s
  {
    hide Head;
    if s != "" {
      UnescapeInvertsEscape(s[1..]);
      HeadOfEscaped(s[0], Escape(s[1..]));
      assert (EscapeChar(s[0]) + Escape(s[1..]))[|EscapeChar(s[0])|..] == Escape(s[1..]);
    }
  }

  lemma HeadOfEscaped(c: char, rest: string)
    ensures Head(EscapeChar(c) + rest) == ([c], |EscapeChar(c)|)
  {
    hide Head;
    if c == '&' {
      NamedEntity("amp", c, rest);
      assert EscapeChar(c) == "&" + "amp" + ";";
    } else if c == '<' {
      NamedEntity("lt", c, rest);
      assert EscapeChar(c) == "&" + "lt" + ";";
    } else if c == '>' {
      NamedEntity("gt", c, rest);
      assert EscapeChar(c) == "&" + "gt" + ";";
    } else if c == '"' {
      NamedEntity("quot", c, rest);
      assert EscapeChar(c) == "&" + "quot" + ";";
    } else if c == '\'' {
      NamedEntity("apos", c, rest);
      assert EscapeChar(c) == "&" + "apos" + ";";
    } else {
      HeadOfPlain([c] + rest);
    }
  }

  lemma HeadOfPlain(s: string)
    requires s != "" && s[0] != '&'
    ensures Head(s) == ([s[0]], 1)
  {
    hide EntityAtHead, Meaning;
  }

  lemma NamedEntity(ent: string, c: char, rest: string)
    requires |ent| <= 11 && forall i :: 0 <= i < |ent| ==> ent[i] != ';'
    requires Meaning(ent) == Some([c])
    ensures Head("&" + ent + ";" + rest) == ([c], |"&" + ent + ";"|)
  {
    hide EntityAtHead, Meaning;
    HeadOfNamed(ent, rest);
  }

  // A reference whose entity is short enough and holds no ';' ends at the ';' behind it.
  lemma HeadOfNamed(ent: string, rest: string)
    requires |ent| <= 11 && forall i :: 0 <= i < |ent| ==> ent[i] != ';'
    ensures EntityAtHead("&" + ent + ";" + rest) == Some(ent)
  {
    var s := "&" + ent + ";" + rest;
    var k := |ent| + 1;
    assert OccursAt(s, ";", k) by {
      assert s[k..k + 1] == ";";
    }
    forall i | 0 <= i < k
      ensures !OccursAt(s, ";", i)
    {
      assert s[i..i + 1][0] != ';';
    }
    FindSkips(s, ";", 0, k);
    assert s[1..k] == ent;
  }

  /** A numeric reference to any code point, in either base and with any leading zeros that keep its
      ';' within 12 characters, decodes to its UTF-8 form; one that denotes no code point, or is no
      number, is left as it is. */
  lemma NumericReferenceDecodes(ent: string, rest: string)
    requires 1 < |ent| <= 11 && ent[0] == '#'
    requires forall i :: 0 <= i < |ent| ==> ent[i] != ';'
    ensures var value := RefMeaning(ent);
      Unescape("&" + ent + ";" + rest) ==
      if value.Some? then value.value + Unescape(rest) else "&" + Unescape(ent + ";" + rest)
  {
    hide RefMeaning, EntityAtHead;
    var s := "&" + ent + ";" + rest;
    HeadOfNamed(ent, rest);
    assert s[1..] == ent + ";" + rest;
    assert s[|ent| + 2..] == rest;
    assert Meaning(ent) == RefMeaning(ent);
  }

  // --- Other ways to write a text ---

  // One piece of a conforming text: a character as it is, or a named or numeric reference that is short
  // enough to be recognised.
  datatype Piece = Raw(c: char) | Reference(ent: string)
  {
    predicate Valid() {
      match this
      case Raw(c) => c != '&' && c != '<'
      case Reference(ent) =>
        |ent| <= 11 && Meaning(ent).Some? && IsText(ent) && forall i :: 0 <= i < |ent| ==> ent[i] != ';'
    }

    function Written(): string {
      if Raw? then [c] else "&" + ent + ";"
    }

    function Meant(): string {
      if Raw? then [c] else if Meaning(ent).Some? then Meaning(ent).value else Written()
    }
  }

  predicate Conforming(pieces: seq<Piece>) {
    forall p <- pieces :: p.Valid()
  }

  function Written(pieces: seq<Piece>): string {
    if pieces == [] then "" else pieces[0].Written() + Written(pieces[1..])
  }

  function Meant(pieces: seq<Piece>): string {
    if pieces == [] then "" else pieces[0].Meant() + Meant(pieces[1..])
  }

  /** However a text is written, each character raw, by name or by number, unescaping gives what it means. */
  lemma {:induction false} UnescapeReads(pieces: seq<Piece>)
    requires Conforming(pieces)
    ensures Unescape(Written(pieces)) == Meant(pieces)
  {
    hide Head, Meaning;
    if pieces != [] {
      var p, rest := pieces[0], Written(pieces[1..]);
      UnescapeReads(pieces[1..]);
      HeadOfPiece(p, rest);
      assert (p.Written() + rest)[|p.Written()|..] == rest;
    }
  }

  lemma HeadOfPiece(p: Piece, rest: string)
    requires p.Valid()
    ensures Head(p.Written() + rest) == (p.Meant(), |p.Written()|)
  {
    hide EntityAtHead, Meaning;
    if p.Raw? {
      HeadOfPlain([p.c] + rest);
    } else {
      HeadOfNamed(p.ent, rest);
      assert p.Written() + rest == "&" + p.ent + ";" + rest;
    }
  }

  lemma {:induction false} WrittenIsText(pieces: seq<Piece>)
    requires Conforming(pieces)
    ensures IsText(Written(pieces))
  {
    hide Meaning;
    if pieces != [] {
      WrittenIsText(pieces[1..]);
      PieceIsText(pieces[0]);
    }
  }

  lemma PieceIsText(p: Piece)
    requires p.Valid()
    ensures IsText(p.Written())
  {
    hide Meaning;
  }

  // The piece that escaping writes for a character.
  function EscapePiece(c: char): Piece {
    if c == '&' then Reference("amp")
    else if c == '<' then Reference("lt")
    else if c == '>' then Reference("gt")
    else if c == '"' then Reference("quot")
    else if c == '\'' then Reference("apos")
    else Raw(c)
  }

  function EscapePieces(s: string): seq<Piece> {
    if s == "" then [] else [EscapePiece(s[0])] + EscapePieces(s[1..])
  }

  lemma EscapePieceWrites(c: char)
    ensures EscapePiece(c).Written() == EscapeChar(c)
  {
  }

  lemma EscapePieceMeans(c: char)
    ensures EscapePiece(c).Valid() && EscapePiece(c).Meant() == [c]
  {
  }

  /** This program's own escaping is one such way. */
  lemma {:induction false} EscapeIsOneWay(s: string)
    ensures Conforming(EscapePieces(s)) && Written(EscapePieces(s)) == Escape(s) && Meant(EscapePieces(s)) == s
  {
    hide EscapePiece, EscapeChar, Meaning, Conforming, Written, Meant;
    hide Piece.Valid, Piece.Written, Piece.Meant;
    if s == "" {
      NoPieces();
    } else {
      EscapeIsOneWay(s[1..]);
      EscapePieceWrites(s[0]);
      EscapePieceMeans(s[0]);
      OnePieceMore(EscapePiece(s[0]), EscapePieces(s[1..]));
    }
  }

  lemma NoPieces()
    ensures Conforming([]) && Written([]) == "" == Meant([])
  {
  }

  lemma OnePieceMore(p: Piece, rest: seq<Piece>)
    ensures Conforming([p] + rest) <==> p.Valid() && Conforming(rest)
    ensures Written([p] + rest) == p.Written() + Written(rest) && Meant([p] + rest) == p.Meant() + Meant(rest)
  {
    hide Piece.Valid, Piece.Written, Piece.Meant;
    assert ([p] + rest)[1..] == rest;
  }

  /** In particular every code point, written as std::to_string writes it. */
  lemma CodePointDecodes(cp: nat, rest: string)
    requires cp <= 0x10FFFF
    ensures Unescape("&#" + Decimal(cp) + ";" + rest) == Utf8(cp) + Unescape(rest)
  {
    hide Utf8, RefMeaning, Decimal, Unescape;
    var ent := "#" + Decimal(cp);
    SevenDigits(cp);
    CodePointMeaning(cp);
    NumericReferenceDecodes(ent, rest);
    assert "&" + ent + ";" + rest == "&#" + Decimal(cp) + ";" + rest;
  }

  lemma CodePointMeaning(cp: nat)
    requires cp <= 0x10FFFF
    ensures RefMeaning("#" + Decimal(cp)) == Some(Utf8(cp))
  {
    hide Utf8;
    DecimalReadsBack(cp);
    DecimalIsRef(Decimal(cp));
    assert RefBody("#" + Decimal(cp)) == Decimal(cp);
  }

  lemma SevenDigits(n: nat)
    requires n < 10000000
    ensures |Decimal(n)| <= 7
  {
    assert Pow10(3) == 1000;
    assert Pow10(7) == 10000 * Pow10(3);
    DecimalDigits(n, 7);
  }

  lemma {:induction false} DecimalIsRef(s: string)
    requires AllDigits(s)
    ensures RefDigits(s, false) && RefValue(s, false) == DecimalValue(s)
  {
    if s != "" {
      DecimalIsRef(s[..|s| - 1]);
    }
  }

  function Pow10(k: nat): nat { if k == 0 then 1 else 10 * Pow10(k - 1) }

  lemma {:induction false} DecimalDigits(n: nat, k: nat)
    requires k > 0 && n < Pow10(k)
    ensures |Decimal(n)| <= k
  {
    if n >= 10 {
      DecimalDigits(n / 10, k - 1);
    }
  }

  // A number in base 16, with digits of one case.
  function Hexadecimal(n: nat, upper: bool): (s: string)
    ensures s != ""
  {
    var digit := (if upper then "0123456789ABCDEF" else "0123456789abcdef")[n % 16];
    if n < 16 then [digit] else Hexadecimal(n / 16, upper) + [digit]
  }

  lemma HexRefDigit(v: nat, upper: bool)
    requires v < 16
    ensures var digit := (if upper then "0123456789ABCDEF" else "0123456789abcdef")[v];
      IsRefDigit(digit, true) && RefDigitValue(digit, true) == v
  {
  }

  lemma {:induction false} HexadecimalIsRef(n: nat, upper: bool)
    ensures RefDigits(Hexadecimal(n, upper), true) && RefValue(Hexadecimal(n, upper), true) == n
  {
    hide IsRefDigit, RefDigitValue;
    HexRefDigit(n % 16, upper);
    var s := Hexadecimal(n, upper);
    if n >= 16 {
      HexadecimalIsRef(n / 16, upper);
      assert s[..|s| - 1] == Hexadecimal(n / 16, upper);
    }
  }

  lemma {:induction false} HexadecimalDigits(n: nat, upper: bool, k: nat)
    requires k > 0 && n < Pow16(k)
    ensures |Hexadecimal(n, upper)| <= k
  {
    if n >= 16 {
      HexadecimalDigits(n / 16, upper, k - 1);
    }
  }

  function Pow16(k: nat): nat { if k == 0 then 1 else 16 * Pow16(k - 1) }

  /** Every code point written in base 16, with digits of either case behind an x of either case, decodes to its
      UTF-8 form as well. */
  lemma HexCodePointDecodes(cp: nat, x: char, upper: bool, rest: string)
    requires cp <= 0x10FFFF && (x == 'x' || x == 'X')
    ensures Unescape("&#" + [x] + Hexadecimal(cp, upper) + ";" + rest) == Utf8(cp) + Unescape(rest)
  {
    hide Utf8, RefMeaning, Hexadecimal, Unescape;
    var digits := Hexadecimal(cp, upper);
    var ent := "#" + [x] + digits;
    assert Pow16(3) == 0x1000 && Pow16(6) == 0x1000 * Pow16(3);
    HexadecimalDigits(cp, upper, 6);
    HexCodePointMeaning(cp, x, upper);
    HexadecimalIsRef(cp, upper);
    NumericReferenceDecodes(ent, rest);
    assert "&" + ent + ";" + rest == "&#" + [x] + digits + ";" + rest;
  }

  lemma HexCodePointMeaning(cp: nat, x: char, upper: bool)
    requires cp <= 0x10FFFF && (x == 'x' || x == 'X')
    ensures RefMeaning("#" + [x] + Hexadecimal(cp, upper)) == Some(Utf8(cp))
  {
    hide Utf8;
    var ent := "#" + [x] + Hexadecimal(cp, upper);
    HexadecimalIsRef(cp, upper);
    assert ent[1] == x && ent[2..] == Hexadecimal(cp, upper);
  }

  /** A number above the last code point is left as it is written. */
  lemma NoCodePointIsLeft(n: nat, rest: string)
    requires 0x10FFFF < n < 10000000000
    ensures Unescape("&#" + Decimal(n) + ";" + rest) == "&" + Unescape("#" + Decimal(n) + ";" + rest)
  {
    hide Utf8, RefMeaning, Decimal, Unescape;
    var ent := "#" + Decimal(n);
    assert Pow10(3) == 1000 && Pow10(6) == 1000 * Pow10(3) && Pow10(10) == 10000 * Pow10(6);
    DecimalDigits(n, 10);
    NoCodePoint(n);
    NumericReferenceDecodes(ent, rest);
    assert "&" + ent + ";" + rest == "&#" + Decimal(n) + ";" + rest;
  }

  lemma NoCodePoint(n: nat)
    requires n > 0x10FFFF
    ensures RefMeaning("#" + Decimal(n)) == None && AllDigits(Decimal(n))
  {
    DecimalReadsBack(n);
    DecimalIsRef(Decimal(n));
    assert RefBody("#" + Decimal(n)) == Decimal(n);
  }

  /** An ampersand whose semicolon is more than twelve characters behind it, or missing, stands for itself. */
  lemma FarSemicolonIsLeft(rest: string)
    requires forall i :: 0 <= i < |rest| && i < 12 ==> rest[i] != ';'
    ensures Unescape("&" + rest) == "&" + Unescape(rest)
  {
    hide Meaning;
    var s := "&" + rest;
    if Find(s, ";", 0).Some? {
      var k := Find(s, ";", 0).value;
      assert s[k..k + 1] == ";";
      assert s[k] == ';' && k > 12;
    }
    assert s[1..] == rest;
  }

  /** The five predefined entities of section 4.6 of XML 1.0. */
  lemma PredefinedEntities(rest: string)
    ensures Unescape("&amp;" + rest) == "&" + Unescape(rest)
    ensures Unescape("&lt;" + rest) == "<" + Unescape(rest)
    ensures Unescape("&gt;" + rest) == ">" + Unescape(rest)
    ensures Unescape("&quot;" + rest) == ['"'] + Unescape(rest)
    ensures Unescape("&apos;" + rest) == "'" + Unescape(rest)
  {
    hide Unescape;
    NamedDecodes("amp", '&', rest);
    NamedDecodes("lt", '<', rest);
    NamedDecodes("gt", '>', rest);
    NamedDecodes("quot", '"', rest);
    NamedDecodes("apos", '\'', rest);
    assert "&amp;" == "&" + "amp" + ";" && "&lt;" == "&" + "lt" + ";" && "&gt;" == "&" + "gt" + ";";
    assert "&quot;" == "&" + "quot" + ";" && "&apos;" == "&" + "apos" + ";";
  }

  lemma NamedDecodes(ent: string, c: char, rest: string)
    requires |ent| <= 11 && forall i :: 0 <= i < |ent| ==> ent[i] != ';'
    requires Meaning(ent) == Some([c])
    ensures Unescape("&" + ent + ";" + rest) == [c] + Unescape(rest)
  {
    hide Head, Meaning;
    NamedEntity(ent, c, rest);
    assert ("&" + ent + ";" + rest)[|"&" + ent + ";"|..] == rest;
  }

  /** Any other name is left as it is. */
  lemma UnknownNameIsLeft(ent: string, rest: string)
    requires |ent| <= 11 && (ent == "" || ent[0] != '#') && forall i :: 0 <= i < |ent| ==> ent[i] != ';'
    requires ent != "amp" && ent != "lt" && ent != "gt" && ent != "quot" && ent != "apos"
    ensures Unescape("&" + ent + ";" + rest) == "&" + Unescape(ent + ";" + rest)
  {
    hide EntityAtHead;
    HeadOfNamed(ent, rest);
    assert ("&" + ent + ";" + rest)[1..] == ent + ";" + rest;
  }
}
