/** Percent-encoding and the canonical query string of a listing. */
module Query {
  import opened Text

  // A byte of a std::string.
  predicate IsByte(c: char) { c as nat < 256 }

  predicate AllBytes(s: string) { forall i :: 0 <= i < |s| ==> IsByte(s[i]) }

  // Section 2.3 of RFC 3986.
  predicate Unreserved(c: char) {
    'A' <= c <= 'Z' || 'a' <= c <= 'z' || '0' <= c <= '9' || c == '-' || c == '_' || c == '.' || c == '~'
  }

  const UNRESERVED: string := "ABCDEFGHIJKLMNOPQRSTUVWXYZ" + "abcdefghijklmnopqrstuvwxyz" + "0123456789-_.~"

  /** A character is left as it is exactly when it is a letter, a digit or one of four marks. */
  lemma LeftAsItIs(c: char)
    requires IsByte(c)
    ensures Encode([c]) == [c] <==> c in UNRESERVED
    ensures c !in UNRESERVED ==> |Encode([c])| == 3 && Encode([c])[0] == '%'
  {
    hide HexDigit;
    assert Encode([c]) == EncodeByte(c) + Encode("");
    UnreservedListed(c);
  }

  lemma UnreservedListed(c: char)
    ensures Unreserved(c) <==> c in UNRESERVED
  {
  }

  function HexDigit(v: nat): (c: char)
    requires v < 16
    ensures Unreserved(c) && HexValue(c) == v
  {
    if v < 10 then '0' + v as char else 'A' + (v - 10) as char
  }

  function HexValue(c: char): nat {
    if '0' <= c <= '9' then c as nat - '0' as nat
    else if 'A' <= c <= 'F' then c as nat - 'A' as nat + 10 else 0
  }

  function EncodeByte(c: char): (r: string)
    ensures (r == [c] && Unreserved(c)) || (|r| == 3 && r[0] == '%' && Unreserved(r[1]) && Unreserved(r[2]))
  {
    if Unreserved(c) then [c] else ['%', HexDigit(c as nat / 16 % 16), HexDigit(c as nat % 16)]
  }

  function Encode(s: string): string
  {
    if s == "" then "" else EncodeByte(s[0]) + Encode(s[1..])
  }

  method UriEncodeComponent(s: string) returns (out: string)
    ensures out == Encode(s)
  {
    hide EncodeByte;
    out := "";
    for i := 0 to |s|
      invariant out + Encode(s[i..]) == Encode(s)
    {
      assert s[i..][1..] == s[i + 1..];
      Assoc(out, EncodeByte(s[i]), Encode(s[i + 1..]));
      out := out + EncodeByte(s[i]);
    }
    assert out + Encode("") == out;
  }

  // Percent-decoding, section 2.1 of RFC 3986.
  function Decode(s: string): string {
    if s == "" then ""
    else if s[0] == '%' && |s| >= 3
    then [((HexValue(s[1]) * 16 + HexValue(s[2])) % 256) as char] + Decode(s[3..])
    else [s[0]] + Decode(s[1..])
  }

  /** Decoding inverts encoding on every byte string. */
  lemma {:induction false} DecodeInvertsEncode(s: string)
    requires AllBytes(s)
    ensures Decode(Encode(s)) == s
  {
    if s != "" {
      DecodeInvertsEncode(s[1..]);
      DecodeAtHead(s[0], Encode(s[1..]));
    }
  }

  lemma DecodeAtHead(c: char, rest: string)
    requires IsByte(c)
    ensures Decode(EncodeByte(c) + rest) == [c] + Decode(rest)
  {
    hide HexDigit, HexValue;
    var s := EncodeByte(c) + rest;
    if Unreserved(c) {
      assert s[1..] == rest;
    } else {
      assert s[3..] == rest;
      HexPairReadsBack(c);
    }
  }

  lemma HexPairReadsBack(c: char)
    requires IsByte(c)
    ensures ((HexValue(HexDigit(c as nat / 16 % 16)) * 16 + HexValue(HexDigit(c as nat % 16))) % 256) as char == c
  {
    var hi, lo := c as nat / 16 % 16, c as nat % 16;
    assert HexValue(HexDigit(hi)) == hi && HexValue(HexDigit(lo)) == lo;
    assert hi * 16 + lo == c as nat;
  }

  // Only unreserved characters and percent signs: none of the delimiters of a query string.
  predicate Encoded(s: string) {
    forall i :: 0 <= i < |s| ==> Unreserved(s[i]) || s[i] == '%'
  }

  lemma {:induction false} EncodeIsEncoded(s: string)
    ensures Encoded(Encode(s))
  {
    hide EncodeByte;
    if s != "" {
      EncodeIsEncoded(s[1..]);
      EncodedByteIsEncoded(s[0]);
    }
  }

  lemma EncodedByteIsEncoded(c: char)
    ensures Encoded(EncodeByte(c))
  {
  }

  // --- list_query ---

  function TokenPart(token: string): string
  {
    if token == "" then "" else "continuation-token=" + Encode(token) + "&"
  }

  function DelimiterPart(delimiter: string): string
  {
    if delimiter == "" then "" else "delimiter=" + Encode(delimiter) + "&"
  }

  function PrefixPart(prefix: string): string
  {
    "list-type=2&prefix=" + Encode(prefix)
  }

  function ListQuery(prefix: string, delimiter: string, token: string): string
  {
    TokenPart(token) + DelimiterPart(delimiter) + PrefixPart(prefix)
  }

  // A parsed query: name and value of each parameter.
  datatype Param = Param(name: string, value: string)

  // The part before the first `stop`, all of it when there is none.
  function Before(s: string, stop: char): string {
    if s == "" || s[0] == stop then "" else [s[0]] + Before(s[1..], stop)
  }

  lemma {:induction false} BeforeStops(a: string, stop: char, b: string)
    requires stop !in a
    ensures Before(a + [stop] + b, stop) == a && Before(a, stop) == a
  {
    if a == "" {
      assert (a + [stop] + b)[0] == stop;
    } else {
      var s := a + [stop] + b;
      assert s[1..] == a[1..] + [stop] + b;
      BeforeStops(a[1..], stop, b);
    }
  }

  // Splits at every '&', and each piece at its first '='.
  function ParseQuery(s: string): seq<Param>
    decreases |s|
  {
    var piece := Before(s, '&');
    BeforeIsPrefix(s, '&');
    var name := Before(piece, '=');
    BeforeIsPrefix(piece, '=');
    var value := if |name| < |piece| then piece[|name| + 1..] else "";
    [Param(name, value)] + if |piece| < |s| then ParseQuery(s[|piece| + 1..]) else []
  }

  lemma {:induction false} BeforeIsPrefix(s: string, stop: char)
    ensures |Before(s, stop)| <= |s|
  {
    if s != "" {
      BeforeIsPrefix(s[1..], stop);
    }
  }

  lemma EncodedHasNoDelimiter(s: string)
    requires Encoded(s)
    ensures '&' !in s && '=' !in s
  {
  }

  // name=value&rest parses to its first parameter and the parameters of the rest.
  lemma ParamAtHead(name: string, value: string, rest: string)
    requires Encoded(name) && Encoded(value)
    ensures ParseQuery(name + "=" + value + "&" + rest) == [Param(name, value)] + ParseQuery(rest)
    ensures ParseQuery(name + "=" + value) == [Param(name, value)]
  {
    var piece := name + "=" + value;
    EncodedHasNoDelimiter(name);
    EncodedHasNoDelimiter(value);
    BeforeStops(piece, '&', rest);
    BeforeStops(name, '=', value);
    var s := piece + "&" + rest;
    assert s[|piece| + 1..] == rest;
    assert piece[|name| + 1..] == value;
  }

  // The parameters of a listing, in the order it sends them; None for one it leaves out.
  function Params(prefix: string, delimiter: Option<string>, token: Option<string>): seq<Param> {
    (if token.None? then [] else [Param("continuation-token", token.value)]) +
    ((if delimiter.None? then [] else [Param("delimiter", delimiter.value)]) +
     [Param("list-type", "2"), Param("prefix", prefix)])
  }

  lemma ParamsInjective(p1: string, d1: Option<string>, t1: Option<string>,
                        p2: string, d2: Option<string>, t2: Option<string>)
    requires Params(p1, d1, t1) == Params(p2, d2, t2)
    ensures p1 == p2 && d1 == d2 && t1 == t2
  {
    var a, b := Params(p1, d1, t1), Params(p2, d2, t2);
    assert a[|a| - 1] == Param("prefix", p1) && b[|b| - 1] == Param("prefix", p2);
    assert t1.Some? <==> a[0].name[0] == 'c';
    assert t2.Some? <==> b[0].name[0] == 'c';
    assert t1.Some? ==> a[0].value == t1.value;
    assert t2.Some? ==> b[0].value == t2.value;
    assert d1.Some? ==> a[|a| - 3].value == d1.value;
    assert d2.Some? ==> b[|b| - 3].value == d2.value;
  }

  function Encoding(s: string): Option<string>
  {
    if s == "" then None else Some(Encode(s))
  }

  // What a listing means to send.
  function ListParams(prefix: string, delimiter: string, token: string): seq<Param>
  {
    Params(Encode(prefix), Encoding(delimiter), Encoding(token))
  }

  /** A server that splits the query at '&' and '=' reads exactly the parameters meant. */
  lemma ListQueryParses(prefix: string, delimiter: string, token: string)
    ensures ParseQuery(ListQuery(prefix, delimiter, token)) == ListParams(prefix, delimiter, token)
  {
    hide ParseQuery, Encode, Encoded, DelimiterPart, PrefixPart;
    var d := DelimiterPart(delimiter) + PrefixPart(prefix);
    DelimiterParses(prefix, delimiter);
    var q := ListQuery(prefix, delimiter, token);
    assert q == TokenPart(token) + d;
    if token != "" {
      EncodeIsEncoded(token);
      NamesAreEncoded();
      ParamAtHead("continuation-token", Encode(token), d);
      assert "continuation-token" + "=" + Encode(token) + "&" + d == q;
    } else {
      assert q == d;
    }
  }

  lemma DelimiterParses(prefix: string, delimiter: string)
    ensures ParseQuery(DelimiterPart(delimiter) + PrefixPart(prefix)) == ListParams(prefix, delimiter, "")
  {
    hide ParseQuery, Encode, Encoded, PrefixPart;
    var l := PrefixPart(prefix);
    PrefixParses(prefix);
    if delimiter != "" {
      EncodeIsEncoded(delimiter);
      NamesAreEncoded();
      ParamAtHead("delimiter", Encode(delimiter), l);
      assert "delimiter" + "=" + Encode(delimiter) + "&" + l == DelimiterPart(delimiter) + l;
    } else {
      assert DelimiterPart(delimiter) + l == l;
    }
  }

  lemma PrefixParses(prefix: string)
    ensures ParseQuery(PrefixPart(prefix)) == ListParams(prefix, "", "")
  {
    hide ParseQuery, Encode, Encoded;
    EncodeIsEncoded(prefix);
    NamesAreEncoded();
    var p := "prefix=" + Encode(prefix);
    ParamAtHead("prefix", Encode(prefix), "");
    assert "prefix" + "=" + Encode(prefix) == p;
    ParamAtHead("list-type", "2", p);
    assert "list-type" + "=" + "2" + "&" + p == PrefixPart(prefix);
  }

  lemma NamesAreEncoded()
    ensures Encoded("prefix") && Encoded("list-type") && Encoded("2")
    ensures Encoded("delimiter") && Encoded("continuation-token")
  {
  }

  lemma EncodeInjective(a: string, b: string)
    requires AllBytes(a) && AllBytes(b) && Encode(a) == Encode(b)
    ensures a == b
  {
    DecodeInvertsEncode(a);
    DecodeInvertsEncode(b);
  }

  /** Different listings send different queries. */
  lemma ListQueryInjective(p1: string, d1: string, t1: string, p2: string, d2: string, t2: string)
    requires AllBytes(p1) && AllBytes(d1) && AllBytes(t1) && AllBytes(p2) && AllBytes(d2) && AllBytes(t2)
    requires ListQuery(p1, d1, t1) == ListQuery(p2, d2, t2)
    ensures p1 == p2 && d1 == d2 && t1 == t2
  {
    hide ListQuery, Encode, Encoding, Params;
    ListQueryParses(p1, d1, t1);
    ListQueryParses(p2, d2, t2);
    ParamsInjective(Encode(p1), Encoding(d1), Encoding(t1), Encode(p2), Encoding(d2), Encoding(t2));
    EncodeInjective(p1, p2);
    EncodingInjective(d1, d2);
    EncodingInjective(t1, t2);
  }

  lemma EncodingInjective(a: string, b: string)
    requires AllBytes(a) && AllBytes(b) && Encoding(a) == Encoding(b)
    ensures a == b
  {
    hide Encode;
    if a != "" {
      EncodeInjective(a, b);
    }
  }

  /** The parameter names are in ascending order, as the canonical query string wants them. */
  lemma ListParamsAscend(prefix: string, delimiter: string, token: string)
    ensures forall i, j :: 0 <= i < j < |ListParams(prefix, delimiter, token)| ==>
              ListParams(prefix, delimiter, token)[i].name[0] < ListParams(prefix, delimiter, token)[j].name[0]
  {
  }
}
