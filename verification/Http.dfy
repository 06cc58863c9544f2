/** What the two request loops share: transport outcomes, endpoints and the backoff. */
module Http {
  import opened Query

  // The transport result of one request (a CURLcode).
  datatype CurlCode =
    | Ok
    | OperationTimedOut | CouldntConnect | CouldntResolveHost | CouldntResolveProxy | SendError | RecvError
    | GotNothing | PartialFile | SslConnectError
    | WriteError | ReadError | OtherError

  predicate IsRetriable(rc: CurlCode) {
    !(rc.Ok? || rc.WriteError? || rc.ReadError? || rc.OtherError?)
  }

  predicate IsRetriableStatus(code: int) {
    code == 500 || code == 502 || code == 503 || code == 504 || code == 429
  }

  /** A failure that may pass: the connection is lost or never made, or the server is busy. */
  predicate Passing(rc: CurlCode, code: int) {
    || rc == OperationTimedOut || rc == CouldntConnect || rc == CouldntResolveHost || rc == CouldntResolveProxy
    || rc == SendError || rc == RecvError || rc == GotNothing || rc == PartialFile || rc == SslConnectError
    || (rc == Ok && (code == 429 || code == 500 || code == 502 || code == 503 || code == 504))
  }

  lemma RetriableIsPassing(rc: CurlCode, code: int)
    ensures Passing(rc, code) <==> IsRetriable(rc) || (rc.Ok? && IsRetriableStatus(code))
  {
  }

  // --- build_endpoint ---

  datatype Config = Config(endpoint: string, pathStyle: bool, maxAttempts: nat)

  datatype Endpoint = Endpoint(host: string, url: string, path: string)

  function StripSlashes(s: string): string {
    if s != "" && s[|s| - 1] == '/' then StripSlashes(s[..|s| - 1]) else s
  }

  function EncodePath(s: string): string {
    if s == "" then "" else (if s[0] == '/' then "/" else EncodeByte(s[0])) + EncodePath(s[1..])
  }

  function BuildEndpoint(cfg: Config, bucket: string, key: string, region: string): Endpoint {
    if cfg.pathStyle then
      var plain, tls := "http://" <= cfg.endpoint, "https://" <= cfg.endpoint;
      var rest := if plain then cfg.endpoint[7..] else if tls then cfg.endpoint[8..] else cfg.endpoint;
      var host, path := StripSlashes(rest), EncodePath("/" + bucket + "/" + key);
      Endpoint(host, (if plain then "http://" else "https://") + host + path, path)
    else
      var host, path := bucket + ".s3." + region + ".amazonaws.com", EncodePath("/" + key);
      Endpoint(host, "https://" + host + path, path)
  }

  lemma {:induction false} PathKeepsSlashes(a: string, b: string)
    ensures EncodePath(a + "/" + b) == EncodePath(a) + "/" + EncodePath(b)
  {
    hide EncodeByte;
    var s := a + "/" + b;
    if a == "" {
      assert s[0] == '/' && s[1..] == b;
    } else {
      assert s[0] == a[0] && s[1..] == a[1..] + "/" + b;
      PathKeepsSlashes(a[1..], b);
    }
  }

  /** Percent-decoding a path gives the bytes it was made of. */
  lemma {:induction false} PathReadsBack(s: string)
    requires AllBytes(s)
    ensures Decode(EncodePath(s)) == s
  {
    hide EncodeByte;
    if s != "" {
      PathReadsBack(s[1..]);
      if s[0] == '/' {
        assert ("/" + EncodePath(s[1..]))[1..] == EncodePath(s[1..]);
      } else {
        DecodeAtHead(s[0], EncodePath(s[1..]));
      }
    }
  }

  lemma {:induction false} StripsSlashes(host: string, slashes: string)
    requires (host == "" || host[|host| - 1] != '/') && forall i :: 0 <= i < |slashes| ==> slashes[i] == '/'
    ensures StripSlashes(host + slashes) == host
  {
    var s := host + slashes;
    if slashes == "" {
      assert s == host;
    } else {
      assert s[..|s| - 1] == host + slashes[..|slashes| - 1];
      StripsSlashes(host, slashes[..|slashes| - 1]);
    }
  }

  /** A path-style endpoint is split into its scheme, https when it names none, its host, and slashes that are
      dropped. The path decodes to the bucket and the key. */
  lemma PathStyleEndpoint(cfg: Config, scheme: string, host: string, slashes: string,
                          bucket: string, key: string, region: string)
    requires cfg.pathStyle && cfg.endpoint == scheme + host + slashes && AllBytes(bucket) && AllBytes(key)
    requires scheme == "http://" || scheme == "https://" ||
             (scheme == "" && !("http://" <= cfg.endpoint) && !("https://" <= cfg.endpoint))
    requires (host == "" || host[|host| - 1] != '/') && forall i :: 0 <= i < |slashes| ==> slashes[i] == '/'
    ensures var e := BuildEndpoint(cfg, bucket, key, region);
      && e.host == host && Decode(e.path) == "/" + bucket + "/" + key
      && e.url == (if scheme == "" then "https://" else scheme) + host + e.path
  {
    hide Decode, EncodePath, StripSlashes;
    PathReadsBack("/" + bucket + "/" + key);
    StripsSlashes(host, slashes);
    assert cfg.endpoint[|scheme|..] == host + slashes;
    assert scheme == "https://" ==> cfg.endpoint[4] == 's';
  }

  /** A virtual-hosted bucket is reached over TLS under the host name of its region. */
  lemma VirtualHostedEndpoint(cfg: Config, bucket: string, key: string, region: string)
    requires !cfg.pathStyle && AllBytes(key)
    ensures var e := BuildEndpoint(cfg, bucket, key, region);
      && e.host == bucket + ".s3." + region + ".amazonaws.com" && e.url == "https://" + e.host + e.path
      && Decode(e.path) == "/" + key
  {
    hide Decode, EncodePath;
    PathReadsBack("/" + key);
  }

  // --- The backoff ceiling ---

  function Pow2(k: nat): (r: nat)
    ensures r > 0
  {
    if k == 0 then 1 else 2 * Pow2(k - 1)
  }

  lemma {:induction false} Pow2Grows(j: nat, k: nat)
    requires j <= k
    ensures Pow2(j) <= Pow2(k)
  {
    if j < k {
      Pow2Grows(j, k - 1);
    }
  }

  /** The longest wait before retry `attempt` (1-based): 100 ms doubled each time, at most 2 s. */
  method BackoffCeiling(attempt: nat) returns (ceiling: nat)
    requires attempt >= 1
    ensures ceiling == if 100 * Pow2(attempt - 1) < 2000 then 100 * Pow2(attempt - 1) else 2000
  {
    ceiling := 100;
    var i := 1;
    while i < attempt && ceiling < 2000
      invariant 1 <= i <= attempt
      invariant ceiling == 100 * Pow2(i - 1)
    {
      ceiling := ceiling * 2;
      i := i + 1;
    }
    Pow2Grows(i - 1, attempt - 1);
    if ceiling > 2000 {
      ceiling := 2000;
    }
  }
}
