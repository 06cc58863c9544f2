/** What a service reads in the texts of a signature: their lines and parts are the fields they were made of,
    and the key is the one that the scope it names is derived to.
 */
module SignatureFields {
  import opened Bytes
  import opened Fips180
  import opened SigV4
  import opened StreamingSha256
  import opened Text

  // The pieces between the separators.
  function Split(s: string, sep: char): (r: seq<string>)
    ensures r != []
  {
    if s == "" then [""]
    else if s[0] == sep then [""] + Split(s[1..], sep)
    else
      var r := Split(s[1..], sep);
      [[s[0]] + r[0]] + r[1..]
  }

  lemma {:induction false} SplitWhole(s: string, sep: char)
    requires sep !in s
    ensures Split(s, sep) == [s]
  {
    if s != "" {
      SplitWhole(s[1..], sep);
      assert [s[0]] + s[1..] == s;
    }
  }

  lemma {:induction false} SplitAt(a: string, sep: char, b: string)
    requires sep !in a
    ensures Split(a + [sep] + b, sep) == [a] + Split(b, sep)
  {
    var s := a + [sep] + b;
    if a == "" {
      assert s[0] == sep && s[1..] == b;
    } else {
      assert s[0] == a[0] && s[1..] == a[1..] + [sep] + b;
      SplitAt(a[1..], sep, b);
      var r := Split(s[1..], sep);
      assert r[0] == a[1..] && r[1..] == Split(b, sep);
      assert [a[0]] + a[1..] == a;
    }
  }

  lemma SplitFour(a: string, b: string, c: string, d: string, sep: char)
    requires sep !in a && sep !in b && sep !in c && sep !in d
    ensures Split(a + [sep] + b + [sep] + c + [sep] + d, sep) == [a, b, c, d]
  {
    hide Split;
    SplitWhole(d, sep);
    SplitAt(c, sep, d);
    SplitAt(b, sep, c + [sep] + d);
    SplitAt(a, sep, b + [sep] + (c + [sep] + d));
    assert a + [sep] + b + [sep] + c + [sep] + d == a + [sep] + (b + [sep] + (c + [sep] + d));
  }

  // --- The scope and the key ---

  /** The parts of a scope are the first eight characters of the date, the region, the service, and a fixed one. */
  lemma ScopeReads(id: Identity)
    requires '/' !in id.amzDate && '/' !in id.region && '/' !in id.service
    ensures Split(Scope(id), '/') ==
            [if |id.amzDate| < 8 then id.amzDate else id.amzDate[..8], id.region, id.service, "aws4_request"]
  {
    hide Split;
    var date := ScopeDate(id);
    assert '/' !in date && date == if |id.amzDate| < 8 then id.amzDate else id.amzDate[..8];
    assert '/' !in "aws4_request";
    SplitFour(date, id.region, id.service, "aws4_request", '/');
    assert "/aws4_request" == ['/'] + "aws4_request";
    assert Scope(id) == date + ['/'] + id.region + ['/'] + id.service + ['/'] + "aws4_request";
  }

  // A key hashed with one part after the other.
  function Chained(key: seq<byte>, parts: seq<string>): seq<byte>
    decreases |parts|
  {
    hide Hmac, AsBytes;
    if parts == [] then key else Chained(Hmac(key, AsBytes(parts[0])), parts[1..])
  }

  /** The signing key is the secret behind "AWS4", chained through the parts of the scope as it is sent. */
  lemma KeyFollowsScope(id: Identity)
    requires '/' !in id.amzDate && '/' !in id.region && '/' !in id.service
    ensures SigningKey(id.secretKey, ScopeDate(id), id.region, id.service) ==
            Chained(AsBytes("AWS4" + id.secretKey), Split(Scope(id), '/'))
  {
    hide Hmac, AsBytes, Scope, Split, Chained;
    ScopeReads(id);
    assert ScopeDate(id) == if |id.amzDate| < 8 then id.amzDate else id.amzDate[..8];
    assert Split(Scope(id), '/') == [ScopeDate(id), id.region, id.service, "aws4_request"];
    ChainedFour(AsBytes("AWS4" + id.secretKey), ScopeDate(id), id.region, id.service, "aws4_request");
  }

  lemma ChainedFour(key: seq<byte>, a: string, b: string, c: string, d: string)
    ensures Chained(key, [a, b, c, d]) == Hmac(Hmac(Hmac(Hmac(key, AsBytes(a)), AsBytes(b)), AsBytes(c)), AsBytes(d))
  {
    hide Hmac, AsBytes;
    var parts := [a, b, c, d];
    assert parts[1..] == [b, c, d] && parts[1..][1..] == [c, d] && parts[1..][1..][1..] == [d];
    assert parts[1..][1..][1..][1..] == [];
    var k1 := Hmac(key, AsBytes(a));
    var k2 := Hmac(k1, AsBytes(b));
    var k3 := Hmac(k2, AsBytes(c));
    assert Chained(k3, [d]) == Chained(Hmac(k3, AsBytes(d)), []);
    assert Chained(k2, [c, d]) == Chained(k3, [d]);
    assert Chained(k1, [b, c, d]) == Chained(k2, [c, d]);
  }

  lemma BytesAreTheString(s: string, i: nat)
    requires i < |s| && s[i] as nat < 256
    ensures |AsBytes(s)| == |s| && AsBytes(s)[i] as nat == s[i] as nat
  {
  }

  // --- The lines of the texts ---

  predicate OneLine(s: string) { '\n' !in s }

  /** The lines of the text that is signed: the algorithm, the date, the scope, and the hash of the request. */
  lemma StringToSignReads(id: Identity, canonical: string)
    requires OneLine(id.amzDate) && OneLine(id.region) && OneLine(id.service)
    ensures Split(StringToSign(id, canonical), '\n') ==
            ["AWS4-HMAC-SHA256", id.amzDate, Scope(id), Hex(Sha256(AsBytes(canonical)))]
  {
    hide Split, Sha256, AsBytes;
    var hash := Hex(Sha256(AsBytes(canonical)));
    HexIsOneLine(Sha256(AsBytes(canonical)));
    ScopeIsOneLine(id);
    hide Hex, Scope;
    SplitFour("AWS4-HMAC-SHA256", id.amzDate, Scope(id), hash, '\n');
    assert "AWS4-HMAC-SHA256\n" == "AWS4-HMAC-SHA256" + ['\n'];
  }

  lemma {:induction false} HexIsOneLine(data: seq<byte>)
    ensures OneLine(Hex(data))
  {
    hide HexDigit;
    if data != [] {
      HexIsOneLine(data[..|data| - 1]);
      DigitsAreNoBreak(data[|data| - 1] as nat / 16);
      DigitsAreNoBreak(data[|data| - 1] as nat % 16);
    }
  }

  lemma DigitsAreNoBreak(v: nat)
    requires v < 16
    ensures HexDigit(v) != '\n' && HexDigit(v) != ' ' && HexDigit(v) != ','
  {
  }

  lemma ScopeIsOneLine(id: Identity)
    requires OneLine(id.amzDate) && OneLine(id.region) && OneLine(id.service)
    ensures OneLine(Scope(id))
  {
  }

  // The line of each header: its name, a colon, and its value without the blanks around it.
  function HeaderLines(sorted: seq<Header>): (r: seq<string>)
    ensures |r| == |sorted|
  {
    seq(|sorted|, i requires 0 <= i < |sorted| => sorted[i].name + ":" + Trim(sorted[i].value))
  }

  ghost predicate OneLiners(sorted: seq<Header>) {
    forall i :: 0 <= i < |sorted| ==> OneLine(sorted[i].name) && OneLine(Trim(sorted[i].value))
  }

  lemma {:induction false} HeadersSplit(sorted: seq<Header>, rest: string)
    requires OneLiners(sorted)
    ensures Split(CanonicalHeaders(sorted) + rest, '\n') == HeaderLines(sorted) + Split(rest, '\n')
    decreases |sorted|
  {
    hide Split, Trim;
    if sorted == [] {
      assert CanonicalHeaders(sorted) + rest == rest;
    } else {
      var front, h := sorted[..|sorted| - 1], sorted[|sorted| - 1];
      var line := h.name + ":" + Trim(h.value);
      HeadersSplit(front, Line(h) + rest);
      SplitAt(line, '\n', rest);
      assert Line(h) + rest == line + ['\n'] + rest;
      assert CanonicalHeaders(sorted) + rest == CanonicalHeaders(front) + (Line(h) + rest);
      assert HeaderLines(sorted) == HeaderLines(front) + [line];
    }
  }

  /** The lines of the canonical request: verb, path and query, a line for each header, an empty one, the list of
      signed headers and the hash of the payload. */
  lemma CanonicalTextReads(req: CanonicalRequest, sorted: seq<Header>)
    requires OneLine(req.verb) && OneLine(req.uri) && OneLine(req.query) && OneLine(req.payloadHash)
    requires OneLiners(sorted)
    ensures Split(CanonicalText(req, sorted), '\n') ==
            [req.verb, req.uri, req.query] + HeaderLines(sorted) + ["", SignedHeaders(sorted), req.payloadHash]
  {
    hide Split, Trim, CanonicalHeaders, SignedHeaders, HeaderLines;
    var tail := "" + ['\n'] + SignedHeaders(sorted) + ['\n'] + req.payloadHash;
    NamesAreOneLine(sorted);
    SplitWhole(req.payloadHash, '\n');
    SplitAt(SignedHeaders(sorted), '\n', req.payloadHash);
    SplitAt("", '\n', SignedHeaders(sorted) + ['\n'] + req.payloadHash);
    assert tail == "" + ['\n'] + (SignedHeaders(sorted) + ['\n'] + req.payloadHash);
    HeadersSplit(sorted, tail);
    var body := CanonicalHeaders(sorted) + tail;
    SplitAt(req.query, '\n', body);
    SplitAt(req.uri, '\n', req.query + ['\n'] + body);
    SplitAt(req.verb, '\n', req.uri + ['\n'] + (req.query + ['\n'] + body));
    assert CanonicalText(req, sorted) == req.verb + ['\n'] + (req.uri + ['\n'] + (req.query + ['\n'] + body));
  }

  lemma {:induction false} NamesAreOneLine(sorted: seq<Header>)
    requires OneLiners(sorted)
    ensures OneLine(SignedHeaders(sorted))
  {
    hide Trim;
    if |sorted| > 1 {
      NamesAreOneLine(sorted[..|sorted| - 1]);
    }
  }

  // The name of each header.
  function Names(sorted: seq<Header>): (r: seq<string>)
    ensures |r| == |sorted|
  {
    seq(|sorted|, i requires 0 <= i < |sorted| => sorted[i].name)
  }

  /** The signed-header list holds the names in their order. */
  lemma {:induction false} SignedHeadersRead(sorted: seq<Header>, more: string)
    requires sorted != [] && forall i :: 0 <= i < |sorted| ==> ';' !in sorted[i].name
    ensures Split(SignedHeaders(sorted), ';') == Names(sorted)
    ensures Split(SignedHeaders(sorted) + ";" + more, ';') == Names(sorted) + Split(more, ';')
    decreases |sorted|
  {
    hide Split;
    var front, name := sorted[..|sorted| - 1], sorted[|sorted| - 1].name;
    SplitWhole(name, ';');
    SplitAt(name, ';', more);
    if |sorted| == 1 {
      assert Names(sorted) == [name];
    } else {
      SignedHeadersRead(front, name);
      SignedHeadersRead(front, name + ";" + more);
      assert SignedHeaders(sorted) == SignedHeaders(front) + ";" + name;
      assert SignedHeaders(sorted) + ";" + more == SignedHeaders(front) + ";" + (name + ";" + more);
      assert Names(sorted) == Names(front) + [name];
    }
  }

  /** What is signed: the host, the hash of the payload and the date always, the range of a range read, and the
      session token when there is one. */
  lemma SignedByStream(host: string, range: string, hash: string, date: string, token: string)
    ensures WindowHeaders(host, range, hash, date, token) ==
            [Header("host", host), Header("range", range), Header("x-amz-content-sha256", hash),
             Header("x-amz-date", date)] +
            (if token != "" then [Header("x-amz-security-token", token)] else [])
  {
  }

  lemma SignedByClient(host: string, range: string, hash: string, date: string, token: string, h: Header)
    ensures h in ClientHeaders(host, range, hash, date, token) <==>
            || h == Header("host", host) || h == Header("x-amz-content-sha256", hash)
            || h == Header("x-amz-date", date) || (range != "" && h == Header("range", range))
            || (token != "" && h == Header("x-amz-security-token", token))
  {
  }

  /** A service finds in the Authorization value the key and scope, the signed headers and the signature. */
  lemma AuthorizationReads(req: CanonicalRequest, sorted: seq<Header>, id: Identity)
    requires ' ' !in id.accessKey && ' ' !in Scope(id) && ' ' !in SignedHeaders(sorted)
    ensures Split(Authorization(req, sorted, id), ' ') ==
            ["AWS4-HMAC-SHA256", "Credential=" + id.accessKey + "/" + Scope(id) + ",",
             "SignedHeaders=" + SignedHeaders(sorted) + ",",
             "Signature=" + Signature(id, CanonicalText(req, sorted))]
  {
    hide Split, Scope, SignedHeaders, CanonicalText;
    var sig := Signature(id, CanonicalText(req, sorted));
    SignatureHasNoBlank(id, CanonicalText(req, sorted));
    hide Signature;
    var a, b := "Credential=" + id.accessKey + "/" + Scope(id) + ",", "SignedHeaders=" + SignedHeaders(sorted) + ",";
    SplitFour("AWS4-HMAC-SHA256", a, b, "Signature=" + sig, ' ');
    AuthorizationIs(req, sorted, id);
  }

  lemma AuthorizationIs(req: CanonicalRequest, sorted: seq<Header>, id: Identity)
    ensures Authorization(req, sorted, id) ==
            "AWS4-HMAC-SHA256" + [' '] + ("Credential=" + id.accessKey + "/" + Scope(id) + ",") + [' '] +
            ("SignedHeaders=" + SignedHeaders(sorted) + ",") + [' '] +
            ("Signature=" + Signature(id, CanonicalText(req, sorted)))
  {
    hide Scope, SignedHeaders, CanonicalText, Signature;
    assert "AWS4-HMAC-SHA256 Credential=" == "AWS4-HMAC-SHA256" + [' '] + "Credential=";
    assert ", SignedHeaders=" == "," + [' '] + "SignedHeaders=";
    assert ", Signature=" == "," + [' '] + "Signature=";
  }

  lemma SignatureHasNoBlank(id: Identity, canonical: string)
    ensures ' ' !in Signature(id, canonical)
  {
    hide Hmac, SigningKey, AsBytes, StringToSign, Hex;
    var key := SigningKey(id.secretKey, ScopeDate(id), id.region, id.service);
    HexHasNoBlank(Hmac(key, AsBytes(StringToSign(id, canonical))));
  }

  lemma {:induction false} HexHasNoBlank(data: seq<byte>)
    ensures ' ' !in Hex(data)
  {
    hide HexDigit;
    if data != [] {
      HexHasNoBlank(data[..|data| - 1]);
      DigitsAreNoBreak(data[|data| - 1] as nat / 16);
      DigitsAreNoBreak(data[|data| - 1] as nat % 16);
    }
  }

  // --- Trimming and the order of names ---

  predicate Blanks(s: string) {
    forall i :: 0 <= i < |s| ==> s[i] == ' ' || s[i] == '\t'
  }

  /** Trimming drops the blanks and tabs around a value, and nothing else. */
  lemma TrimIsExact(s: string) returns (front: string, back: string)
    ensures s == front + Trim(s) + back && Blanks(front) && Blanks(back)
    ensures Trim(s) == "" || (!Blanks(Trim(s)[..1]) && !Blanks(Trim(s)[|Trim(s)| - 1..]))
  {
    front := TrimFrontIsExact(s);
    back := TrimBackIsExact(TrimFront(s));
    TrimBackKeepsFirst(TrimFront(s));
  }

  lemma {:induction false} TrimFrontIsExact(s: string) returns (front: string)
    ensures s == front + TrimFront(s) && Blanks(front)
    ensures TrimFront(s) != "" ==> !Blanks(TrimFront(s)[..1])
  {
    if s != "" && IsBlank(s[0]) {
      front := TrimFrontIsExact(s[1..]);
      front := [s[0]] + front;
    } else {
      front := "";
    }
  }

  lemma {:induction false} TrimBackIsExact(s: string) returns (back: string)
    ensures s == TrimBack(s) + back && Blanks(back)
    ensures TrimBack(s) != "" ==> !Blanks(TrimBack(s)[|TrimBack(s)| - 1..])
  {
    if s != "" && IsBlank(s[|s| - 1]) {
      back := TrimBackIsExact(s[..|s| - 1]);
      back := back + [s[|s| - 1]];
    } else {
      back := "";
    }
  }

  lemma TrimBackKeepsFirst(s: string)
    ensures TrimBack(s) != "" ==> TrimBack(s)[..1] == s[..1]
  {
    var back := TrimBackIsExact(s);
  }

  // b is behind a at the first character where they differ, or a ends there.
  predicate DiffersAt(a: string, b: string, k: nat) {
    && k <= |a| && k < |b| && a[..k] == b[..k]
    && (k == |a| || a[k] < b[k])
  }

  /** The order of names is that of the first character where they differ. */
  lemma {:induction false} LessIsFirstDifference(a: string, b: string)
    ensures Less(a, b) <==> exists k: nat :: DiffersAt(a, b, k)
  {
    if a == "" {
      if b != "" {
        assert DiffersAt(a, b, 0);
      }
    } else if b != "" {
      LessIsFirstDifference(a[1..], b[1..]);
      if a[0] == b[0] {
        if k: nat :| DiffersAt(a[1..], b[1..], k) {
          assert a[..k + 1] == [a[0]] + a[1..][..k] && b[..k + 1] == [b[0]] + b[1..][..k];
          assert DiffersAt(a, b, k + 1);
        }
        if k: nat :| DiffersAt(a, b, k) {
          assert k > 0 && a[1..][..k - 1] == a[..k][1..] && b[1..][..k - 1] == b[..k][1..];
          assert DiffersAt(a[1..], b[1..], k - 1);
        }
      } else if a[0] < b[0] {
        assert DiffersAt(a, b, 0);
      } else {
        forall k: nat
          ensures !DiffersAt(a, b, k)
        {
          if 0 < k <= |a| && k < |b| {
            assert a[..k][0] != b[..k][0];
          }
        }
      }
    }
  }
}
