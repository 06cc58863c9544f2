/** AWS Signature Version 4: the canonical request, the signing key and the Authorization value. */
module SigV4 {
  import opened Bytes
  import opened Fips180
  import opened StreamingSha256

  datatype Header = Header(name: string, value: string)

  datatype CanonicalRequest = CanonicalRequest(
    verb: string, uri: string, query: string, headers: seq<Header>, payloadHash: string)

  // --- Trimming ---

  predicate IsBlank(c: char) { c == ' ' || c == '\t' }

  function TrimFront(s: string): string {
    if s != "" && IsBlank(s[0]) then TrimFront(s[1..]) else s
  }

  function TrimBack(s: string): string {
    if s != "" && IsBlank(s[|s| - 1]) then TrimBack(s[..|s| - 1]) else s
  }

  function Trim(s: string): string { TrimBack(TrimFront(s)) }

  // --- The order of names ---

  // std::string's operator<.
  predicate Less(a: string, b: string) {
    b != "" && (a == "" || a[0] < b[0] || (a[0] == b[0] && Less(a[1..], b[1..])))
  }

  lemma {:induction false} LessIsTotal(a: string, b: string)
    ensures Less(a, b) || Less(b, a) || a == b
    ensures !(Less(a, b) && Less(b, a))
  {
    if a != "" && b != "" {
      LessIsTotal(a[1..], b[1..]);
      assert a == [a[0]] + a[1..] && b == [b[0]] + b[1..];
    }
  }

  lemma {:induction false} LessIsTransitive(a: string, b: string, c: string)
    requires !Less(b, a) && !Less(c, b)
    ensures !Less(c, a)
  {
    if a != "" && b != "" && c != "" {
      if a[0] == b[0] == c[0] {
        LessIsTransitive(a[1..], b[1..], c[1..]);
      }
    }
  }

  ghost predicate Ascending(headers: seq<Header>) {
    forall i, j :: 0 <= i < j < |headers| ==> !Less(headers[j].name, headers[i].name)
  }

  // All that std::sort promises: headers of the same name come in any order.
  ghost predicate IsSort(headers: seq<Header>, sorted: seq<Header>) {
    multiset(sorted) == multiset(headers) && Ascending(sorted)
  }

  // No two headers share a name, unless they are equal.
  predicate Distinct(headers: seq<Header>) {
    forall x, y :: x in headers && y in headers && x.name == y.name ==> x == y
  }

  method SortHeaders(headers: seq<Header>) returns (sorted: seq<Header>)
    ensures IsSort(headers, sorted)
  {
    hide Less;
    sorted := [];
    for i := 0 to |headers|
      invariant IsSort(headers[..i], sorted)
    {
      var k := 0;
      while k < |sorted| && !Less(headers[i].name, sorted[k].name)
        invariant k <= |sorted|
        invariant forall j :: 0 <= j < k ==> !Less(headers[i].name, sorted[j].name)
      {
        k := k + 1;
      }
      InsertAscending(sorted, k, headers[i]);
      InsertMembers(sorted, k, headers[i]);
      sorted := sorted[..k] + [headers[i]] + sorted[k..];
      assert headers[..i + 1] == headers[..i] + [headers[i]];
    }
    assert headers[..|headers|] == headers;
  }

  lemma InsertMembers(sorted: seq<Header>, k: nat, h: Header)
    requires k <= |sorted|
    ensures multiset(sorted[..k] + [h] + sorted[k..]) == multiset(sorted) + multiset{h}
  {
    assert sorted == sorted[..k] + sorted[k..];
  }

  lemma InsertAscending(sorted: seq<Header>, k: nat, h: Header)
    requires Ascending(sorted) && k <= |sorted|
    requires forall j :: 0 <= j < k ==> !Less(h.name, sorted[j].name)
    requires k < |sorted| ==> Less(h.name, sorted[k].name)
    ensures Ascending(sorted[..k] + [h] + sorted[k..])
  {
    hide Less;
    forall j | k <= j < |sorted|
      ensures !Less(sorted[j].name, h.name)
    {
      LessIsTotal(h.name, sorted[k].name);
      LessIsTotal(sorted[k].name, sorted[k].name);
      LessIsTransitive(h.name, sorted[k].name, sorted[j].name);
    }
  }

  /** Sorting headers of distinct names has one result, whatever the order they are listed in. */
  lemma {:induction false} SortIsUnique(a: seq<Header>, b: seq<Header>)
    requires Distinct(a) && Ascending(a) && Ascending(b) && multiset(a) == multiset(b)
    ensures a == b
    decreases |a|
  {
    hide Less, Ascending;
    assert |multiset(a)| == |a| && |multiset(b)| == |b|;
    if a != [] {
      HeadsAgree(a, b);
      TailsAgree(a, b);
      TailAscends(a);
      TailAscends(b);
      SortIsUnique(a[1..], b[1..]);
    }
  }

  lemma TailAscends(a: seq<Header>)
    requires Ascending(a) && a != []
    ensures Ascending(a[1..])
  {
    hide Less;
  }

  lemma TailsAgree(a: seq<Header>, b: seq<Header>)
    requires a != [] && b != [] && a[0] == b[0] && multiset(a) == multiset(b)
    ensures multiset(a[1..]) == multiset(b[1..])
  {
    assert a == [a[0]] + a[1..] && b == [b[0]] + b[1..];
    assert multiset(a[1..]) == multiset(a) - multiset{a[0]};
    assert multiset(b[1..]) == multiset(b) - multiset{b[0]};
  }

  lemma HeadsAgree(a: seq<Header>, b: seq<Header>)
    requires a != [] && b != [] && Distinct(a) && Ascending(a) && Ascending(b) && multiset(a) == multiset(b)
    ensures a[0] == b[0]
  {
    hide Less, Ascending;
    assert a[0] in multiset(b) && b[0] in multiset(a);
    HeadIsLeast(a, b[0]);
    HeadIsLeast(b, a[0]);
    LessIsTotal(a[0].name, b[0].name);
  }

  lemma HeadIsLeast(a: seq<Header>, x: Header)
    requires Ascending(a) && x in a
    ensures !Less(x.name, a[0].name)
  {
    LessIsTotal(x.name, x.name);
  }

  // --- The request and the signature ---

  function CanonicalHeaders(sorted: seq<Header>): string {
    if sorted == [] then ""
    else CanonicalHeaders(sorted[..|sorted| - 1]) + Line(sorted[|sorted| - 1])
  }

  function Line(h: Header): string { h.name + ":" + Trim(h.value) + "\n" }

  // The names, separated by semicolons.
  function SignedHeaders(sorted: seq<Header>): string {
    if sorted == [] then ""
    else if |sorted| == 1 then sorted[0].name
    else SignedHeaders(sorted[..|sorted| - 1]) + ";" + sorted[|sorted| - 1].name
  }

  // --- What does not depend on the order ---

  // Headers of one name have the same value, but for blanks around it.
  predicate Consistent(headers: seq<Header>) {
    forall x, y :: x in headers && y in headers && x.name == y.name ==> Trim(x.value) == Trim(y.value)
  }

  function Map(f: Header -> Header, s: seq<Header>): seq<Header> {
    seq(|s|, i requires 0 <= i < |s| => f(s[i]))
  }

  function Trimmed(): Header -> Header { (h: Header) => Header(h.name, Trim(h.value)) }

  function NameOnly(): Header -> Header { (h: Header) => Header(h.name, "") }

  lemma MapAround(f: Header -> Header, a: seq<Header>, h: Header, b: seq<Header>)
    ensures Map(f, a + [h] + b) == Map(f, a) + [f(h)] + Map(f, b)
    ensures Map(f, a + b) == Map(f, a) + Map(f, b)
  {
  }

  lemma WithoutOne(a: seq<Header>, front: seq<Header>, back: seq<Header>)
    requires a != [] && multiset(a) == multiset(front + [a[0]] + back)
    ensures multiset(a[1..]) == multiset(front + back)
  {
    assert a == [a[0]] + a[1..];
    assert multiset(a[1..]) == multiset(a) - multiset{a[0]};
  }

  lemma WithOne(x: Header, u: seq<Header>, v: seq<Header>, w: seq<Header>)
    requires multiset(u) == multiset(v + w)
    ensures multiset([] + [x] + u) == multiset(v + [x] + w)
  {
    assert [] + [x] + u == [x] + u;
  }

  lemma {:induction false} MapMembers(f: Header -> Header, a: seq<Header>, b: seq<Header>)
    requires multiset(a) == multiset(b)
    ensures multiset(Map(f, a)) == multiset(Map(f, b))
    decreases |a|, 1
  {
    assert |multiset(a)| == |a| && |multiset(b)| == |b|;
    if a != [] {
      assert a[0] in multiset(b);
      var j :| 0 <= j < |b| && b[j] == a[0];
      MapMembersAt(f, a, b, b[..j], b[j + 1..]);
    }
  }

  lemma {:induction false} MapMembersAt(f: Header -> Header, a: seq<Header>, b: seq<Header>,
                                        front: seq<Header>, back: seq<Header>)
    requires a != [] && multiset(a) == multiset(b) && b == front + [a[0]] + back
    ensures multiset(Map(f, a)) == multiset(Map(f, b))
    decreases |a|, 0
  {
    hide Map;
    WithoutOne(a, front, back);
    MapMembers(f, a[1..], front + back);
    assert a == [] + [a[0]] + a[1..];
    MapAround(f, [], a[0], a[1..]);
    MapAround(f, front, a[0], back);
    MapNothing(f);
    WithOne(f(a[0]), Map(f, a[1..]), Map(f, front), Map(f, back));
  }

  lemma MapNothing(f: Header -> Header)
    ensures Map(f, []) == []
  {
  }

  // Two sorts of the same headers look the same through a map that keeps names and makes them distinct.
  lemma MapsAgree(f: Header -> Header, a: seq<Header>, b: seq<Header>)
    requires Ascending(a) && Ascending(b) && multiset(a) == multiset(b)
    requires forall h :: f(h).name == h.name
    requires Distinct(Map(f, a))
    ensures Map(f, a) == Map(f, b)
  {
    hide Less, Distinct;
    MapMembers(f, a, b);
    SortIsUnique(Map(f, a), Map(f, b));
  }

  // The text of headers whose values are trimmed already.
  function Lines(headers: seq<Header>): string {
    if headers == [] then ""
    else
      var last := headers[|headers| - 1];
      Lines(headers[..|headers| - 1]) + (last.name + ":" + last.value + "\n")
  }

  lemma {:induction false} CanonicalIsLines(s: seq<Header>)
    ensures CanonicalHeaders(s) == Lines(Map(Trimmed(), s))
  {
    hide Trim;
    if s != [] {
      CanonicalIsLines(s[..|s| - 1]);
      assert Map(Trimmed(), s)[..|s| - 1] == Map(Trimmed(), s[..|s| - 1]);
    }
  }

  lemma {:induction false} SignedIsNames(s: seq<Header>)
    ensures SignedHeaders(s) == SignedHeaders(Map(NameOnly(), s))
  {
    if |s| > 1 {
      SignedIsNames(s[..|s| - 1]);
      assert Map(NameOnly(), s)[..|s| - 1] == Map(NameOnly(), s[..|s| - 1]);
    }
  }

  /** The signed-header list never depends on the order, and the canonical headers do not when headers of one
      name have the same value. */
  lemma SortsShow(h1: seq<Header>, h2: seq<Header>, s1: seq<Header>, s2: seq<Header>)
    requires multiset(h1) == multiset(h2) && IsSort(h1, s1) && IsSort(h2, s2)
    ensures SignedHeaders(s1) == SignedHeaders(s2)
    ensures Consistent(h1) ==> CanonicalHeaders(s1) == CanonicalHeaders(s2)
  {
    hide Trim, Less, SignedHeaders, CanonicalHeaders, Ascending;
    MapsAgree(NameOnly(), s1, s2);
    SignedIsNames(s1);
    SignedIsNames(s2);
    if Consistent(h1) {
      forall x | x in s1
        ensures x in h1
      {
        assert x in multiset(s1);
      }
      MapsAgree(Trimmed(), s1, s2);
      CanonicalIsLines(s1);
      CanonicalIsLines(s2);
    }
  }

  function CanonicalText(req: CanonicalRequest, sorted: seq<Header>): string {
    req.verb + "\n" + req.uri + "\n" + req.query + "\n" +
    CanonicalHeaders(sorted) + "\n" + SignedHeaders(sorted) + "\n" + req.payloadHash
  }

  // The bytes of a std::string.
  function AsBytes(s: string): seq<byte> {
    seq(|s|, i requires 0 <= i < |s| => (s[i] as int % 256) as byte)
  }

  function SigningKey(secret: string, date: string, region: string, service: string): seq<byte> {
    var kDate := Hmac(AsBytes("AWS4" + secret), AsBytes(date));
    var kRegion := Hmac(kDate, AsBytes(region));
    var kService := Hmac(kRegion, AsBytes(service));
    Hmac(kService, AsBytes("aws4_request"))
  }

  datatype Identity = Identity(accessKey: string, secretKey: string, region: string, service: string, amzDate: string)

  function ScopeDate(id: Identity): string {
    if |id.amzDate| <= 8 then id.amzDate else id.amzDate[..8]
  }

  function Scope(id: Identity): string {
    ScopeDate(id) + "/" + id.region + "/" + id.service + "/aws4_request"
  }

  function StringToSign(id: Identity, canonical: string): string {
    "AWS4-HMAC-SHA256\n" + id.amzDate + "\n" + Scope(id) + "\n" + Hex(Sha256(AsBytes(canonical)))
  }

  function Signature(id: Identity, canonical: string): string {
    Hex(Hmac(SigningKey(id.secretKey, ScopeDate(id), id.region, id.service), AsBytes(StringToSign(id, canonical))))
  }

  function Authorization(req: CanonicalRequest, sorted: seq<Header>, id: Identity): string {
    "AWS4-HMAC-SHA256 Credential=" + id.accessKey + "/" + Scope(id) + ", SignedHeaders=" + SignedHeaders(sorted) +
    ", Signature=" + Signature(id, CanonicalText(req, sorted))
  }

  /** The chained keys, computed with the hash and the HMAC of this program. */
  method DeriveSigningKey(secret: string, date: string, region: string, service: string) returns (key: seq<byte>)
    ensures key == SigningKey(secret, date, region, service)
  {
    hide Hmac, AsBytes;
    var kDate := HmacSha256Raw(AsBytes("AWS4" + secret), AsBytes(date));
    var kRegion := HmacSha256Raw(kDate, AsBytes(region));
    var kService := HmacSha256Raw(kRegion, AsBytes(service));
    key := HmacSha256Raw(kService, AsBytes("aws4_request"));
  }

  /** The Authorization value of the headers in the order a sort may leave them; and of any such order, when
      headers of one name have the same value. */
  method BuildAuthorization(req: CanonicalRequest, id: Identity) returns (authz: string, signedHeaders: string)
    ensures exists sorted :: IsSort(req.headers, sorted) &&
              signedHeaders == SignedHeaders(sorted) && authz == Authorization(req, sorted, id)
    ensures forall sorted :: Consistent(req.headers) && IsSort(req.headers, sorted) ==>
              signedHeaders == SignedHeaders(sorted) && authz == Authorization(req, sorted, id)
  {
    hide Line, Scope, SigningKey, AsBytes, Hmac, Sha256, Hex;
    var headers := SortHeaders(req.headers);
    var canonicalHeaders := "";
    signedHeaders := "";
    for i := 0 to |headers|
      invariant canonicalHeaders == CanonicalHeaders(headers[..i])
      invariant signedHeaders == SignedHeaders(headers[..i]) + if 0 < i < |headers| then ";" else ""
    {
      assert headers[..i + 1][..i] == headers[..i];
      canonicalHeaders := canonicalHeaders + Line(headers[i]);
      signedHeaders := signedHeaders + headers[i].name;
      if i + 1 < |headers| {
        signedHeaders := signedHeaders + ";";
      }
    }
    assert headers[..|headers|] == headers;
    var canonical := req.verb + "\n" + req.uri + "\n" + req.query + "\n" +
                     canonicalHeaders + "\n" + signedHeaders + "\n" + req.payloadHash;
    assert canonical == CanonicalText(req, headers);
    var hash := Sha256Hex(AsBytes(canonical));
    var toSign := "AWS4-HMAC-SHA256\n" + id.amzDate + "\n" + Scope(id) + "\n" + hash;
    var key := DeriveSigningKey(id.secretKey, ScopeDate(id), id.region, id.service);
    var mac := HmacSha256Raw(key, AsBytes(toSign));
    var signature := HexEncode(mac);
    authz := "AWS4-HMAC-SHA256 Credential=" + id.accessKey + "/" + Scope(id) + ", SignedHeaders=" + signedHeaders +
             ", Signature=" + signature;
    forall sorted | Consistent(req.headers) && IsSort(req.headers, sorted)
      ensures SignedHeaders(sorted) == signedHeaders && CanonicalText(req, sorted) == canonical
    {
      SortsShow(req.headers, req.headers, sorted, headers);
    }
  }

  lemma SortsAgree(h1: seq<Header>, h2: seq<Header>, s1: seq<Header>, s2: seq<Header>)
    requires Distinct(h1) && multiset(h1) == multiset(h2) && IsSort(h1, s1) && IsSort(h2, s2)
    ensures s1 == s2
  {
    forall x | x in s1
      ensures x in h1
    {
      assert x in multiset(s1);
    }
    SortIsUnique(s1, s2);
  }

  /** Order independence: two requests that list the same headers in different orders, those of one name with
      the same value, have the same canonical request, signed-header list and Authorization value, however they
      are sorted. */
  lemma OrderDoesNotMatter(r1: CanonicalRequest, r2: CanonicalRequest, s1: seq<Header>, s2: seq<Header>, id: Identity)
    requires Consistent(r1.headers) && multiset(r1.headers) == multiset(r2.headers)
    requires r1 == r2.(headers := r1.headers)
    requires IsSort(r1.headers, s1) && IsSort(r2.headers, s2)
    ensures CanonicalText(r1, s1) == CanonicalText(r2, s2)
    ensures SignedHeaders(s1) == SignedHeaders(s2)
    ensures Authorization(r1, s1, id) == Authorization(r2, s2, id)
  {
    hide CanonicalHeaders, SignedHeaders, Scope, Signature, Consistent, IsSort;
    SortsShow(r1.headers, r2.headers, s1, s2);
  }

  // --- The two places that build a request ---

  function TokenHeader(token: string): seq<Header> {
    if token == "" then [] else [Header("x-amz-security-token", token)]
  }

  function SignedAlways(hash: string, date: string): seq<Header> {
    [Header("x-amz-content-sha256", hash), Header("x-amz-date", date)]
  }

  // The stream's order.
  function WindowHeaders(host: string, range: string, hash: string, date: string, token: string): seq<Header> {
    [Header("host", host)] + [Header("range", range)] + SignedAlways(hash, date) + TokenHeader(token)
  }

  // The client's order.
  function ClientHeaders(host: string, range: string, hash: string, date: string, token: string): seq<Header> {
    [Header("host", host)] + SignedAlways(hash, date) + (if range == "" then [] else [Header("range", range)]) +
    TokenHeader(token)
  }

  lemma NamesDiffer()
    ensures "host"[0] == 'h' && "range"[0] == 'r'
    ensures |"x-amz-content-sha256"| == |"x-amz-security-token"| == 20 && |"x-amz-date"| == 10
    ensures "x-amz-content-sha256"[6] == 'c' && "x-amz-security-token"[6] == 's'
    ensures "x-amz-content-sha256"[0] == "x-amz-security-token"[0] == "x-amz-date"[0] == 'x'
  {
  }

  /** The same range read is signed the same by both. */
  lemma BuildersAgree(host: string, range: string, hash: string, date: string, token: string,
                      s1: seq<Header>, s2: seq<Header>)
    requires range != ""
    requires IsSort(WindowHeaders(host, range, hash, date, token), s1)
    requires IsSort(ClientHeaders(host, range, hash, date, token), s2)
    ensures s1 == s2
  {
    hide WindowHeaders, ClientHeaders, Distinct, IsSort;
    WindowIsDistinct(host, range, hash, date, token);
    SameHeaders(host, range, hash, date, token);
    SortsAgree(WindowHeaders(host, range, hash, date, token), ClientHeaders(host, range, hash, date, token), s1, s2);
  }

  lemma WindowIsDistinct(host: string, range: string, hash: string, date: string, token: string)
    ensures Distinct(WindowHeaders(host, range, hash, date, token))
  {
    NamesDiffer();
  }

  lemma SameHeaders(host: string, range: string, hash: string, date: string, token: string)
    requires range != ""
    ensures multiset(WindowHeaders(host, range, hash, date, token)) ==
            multiset(ClientHeaders(host, range, hash, date, token))
  {
    hide SignedAlways, TokenHeader;
    Swapped([Header("host", host)], [Header("range", range)], SignedAlways(hash, date), TokenHeader(token));
  }

  lemma Swapped(a: seq<Header>, b: seq<Header>, c: seq<Header>, d: seq<Header>)
    ensures multiset(a + b + c + d) == multiset(a + c + b + d)
  {
  }
}
