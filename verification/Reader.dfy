/** The seekable stream buffer over range GETs, with the disk cache on or off: a window on the object that
    is to be indistinguishable from indexing a flat byte array.
 */
module Reader {
  import opened Bytes
  import opened Text
  import opened DiskCache
  import opened CacheTruth
  import opened Http

  // --- The other end ---

  datatype Request = Request(endpoint: Endpoint, region: string, first: nat, last: nat)

  datatype Reply = Reply(rc: CurlCode, code: int, body: seq<byte>, regionHeader: string)

  // What answers the k-th request of a stream.
  type Server = (nat, Request) -> Reply

  // Range semantics, sections 14.2, 15.3.7 and 15.5.17 of RFC 9110: a 206 carries exactly the bytes of
  // the range that exist, a 200 the whole object, and 416 means the range starts at or past the end.
  predicate Honest(content: seq<byte>, req: Request, r: Reply) {
    r.rc.Ok? ==>
      && (r.code == 206 ==> req.first <= req.last && req.first < |content| &&
                            r.body == BlockOf(content, req.first, req.last + 1 - req.first))
      && (r.code == 200 ==> r.body == content)
      && (r.code == 416 ==> |content| <= req.first)
  }

  // A server either serves ranges, or ignores the Range header; it does not switch.
  datatype Style = Ranges | Whole

  predicate InStyle(style: Style, r: Reply) {
    r.rc.Ok? ==> if style.Ranges? then r.code != 200 else r.code != 206 && r.code != 416
  }

  // A server that serves ranges and answers every request for one.
  function RangeServer(content: seq<byte>): Server {
    (k: nat, req: Request) =>
      if req.last < req.first then Reply(OtherError, 0, [], "")
      else if req.first < |content| then Reply(Ok, 206, BlockOf(content, req.first, req.last + 1 - req.first), "")
      else Reply(Ok, 416, [], "")
  }

  // The same for its first reply; from then on it ignores the Range header.
  function TurningServer(content: seq<byte>): Server {
    (k: nat, req: Request) => if k == 0 then RangeServer(content)(k, req) else Reply(Ok, 200, content, "")
  }

  // What the thread's error string tells of its last fetch; Clean is the empty string.
  datatype LoadError = Clean | NoHandle | NoCredentials | Transport(rc: CurlCode) | BadStatus(code: int)

  // The error of a request that was not answered.
  function ErrorOf(r: Reply): (e: LoadError)
    ensures !e.Clean?
  {
    if r.rc.Ok? then BadStatus(r.code) else Transport(r.rc)
  }

  datatype SeekDir = Beg | Cur | End

  predicate Answers(r: Reply) {
    r.rc.Ok? && (r.code == 200 || r.code == 206 || r.code == 416)
  }

  // --- Chunk alignment ---

  function Align(target: nat, readAhead: nat): nat
    requires readAhead > 0
  {
    target / readAhead * readAhead
  }

  lemma AlignFacts(target: nat, readAhead: nat)
    requires readAhead > 0
    ensures Align(target, readAhead) <= target < Align(target, readAhead) + readAhead
    ensures Align(target, readAhead) % readAhead == 0
    ensures target == Align(target, readAhead) + target % readAhead
  {
    var q, r := target / readAhead, target % readAhead;
    assert target == readAhead * q + r;
    assert q * readAhead == readAhead * q;
    ProductIsMultiple(readAhead, q);
  }

  lemma MultipleNext(x: nat, readAhead: nat)
    requires readAhead > 0
    ensures x % readAhead == 0 ==> (x + readAhead) % readAhead == 0
  {
    if x % readAhead == 0 {
      DivisionUnique(x + readAhead, readAhead, x / readAhead + 1, 0);
    }
  }

  // --- Where a seek lands ---

  // The 64-bit unsigned value of a stream offset.
  function Unsigned(off: int): (r: nat)
    requires -0x8000_0000_0000_0000 <= off < 0x8000_0000_0000_0000
    ensures r < 0x1_0000_0000_0000_0000 && (r - off) % 0x1_0000_0000_0000_0000 == 0
  {
    if off >= 0 then off else 0x1_0000_0000_0000_0000 + off
  }

  // The position of the stream after a successful seek to p. At or before the object's end it is p.
  function Landing(size: nat, style: Style, cacheOn: bool, readAhead: nat, p: nat): nat
    requires readAhead > 0
  {
    if p <= size then p
    else if style.Whole? then size
    else if !cacheOn then p
    else if Align(p, readAhead) < size then size
    else Align(p, readAhead)
  }

  /** A seek lands where it was sent exactly when the target is not past the end, or the server serves
      ranges and the target is not aligned down. It lands past the end exactly when it was sent there. */
  lemma LandingIsExact(size: nat, style: Style, cacheOn: bool, readAhead: nat, p: nat)
    requires readAhead > 0
    ensures Landing(size, style, cacheOn, readAhead, p) == p <==>
            p <= size || (style.Ranges? && (cacheOn ==> p % readAhead == 0))
    ensures Landing(size, style, cacheOn, readAhead, p) >= size <==> p >= size
    ensures Landing(size, style, cacheOn, readAhead, p) <= p
  {
    AlignFacts(p, readAhead);
  }

  // --- What a caller can tell of the state ---

  datatype Setting = Setting(size: nat, style: Style, cacheOn: bool, readAhead: nat)

  // The window's start and length, the end-of-object flag, the position, and whether the last error is clear.
  datatype View = View(start: nat, len: nat, eof: bool, pos: nat, clean: bool)

  // After a load for `target` that succeeds.
  function LoadedView(g: Setting, target: nat): View
    requires g.readAhead > 0
  {
    if g.style.Whole? then View(0, g.size, true, if target < g.size then target else g.size, true)
    else
      var start := if g.cacheOn then Align(target, g.readAhead) else target;
      var len := if g.size <= start then 0 else if g.size - start < g.readAhead then g.size - start else g.readAhead;
      View(start, len, len < g.readAhead, if target < start + len then target else start + len, true)
  }

  lemma EmptyIsEof(g: Setting, target: nat)
    requires g.readAhead > 0
    ensures LoadedView(g, target).len == 0 ==> LoadedView(g, target).eof
  {
  }

  // After one that fails: nothing is left but the window's start and the flag.
  function FailedView(v: View): View {
    View(v.start, 0, v.eof, v.start, false)
  }

  // After a refill; `ok` says whether a load, if one is needed, succeeds.
  function RefilledView(g: Setting, v: View, ok: bool): View
    requires g.readAhead > 0
  {
    if v.pos < v.start + v.len || v.eof then v
    else if ok then LoadedView(g, v.start + v.len)
    else FailedView(v)
  }

  // After an absolute seek.
  function SoughtView(g: Setting, v: View, target: nat, ok: bool): View
    requires g.readAhead > 0
  {
    if v.len > 0 && v.start <= target <= v.start + v.len then v.(pos := target, clean := true)
    else if ok then LoadedView(g, target)
    else FailedView(v)
  }

  // The request that decides a load: the first that is neither redirected nor retried.
  datatype Decision = Decision(k: nat, region: string, reply: Reply)

  predicate Readable(io: LoadIo) { io.LoadOk? || io.TouchFails? }

  lemma LoadedIsReadable(io: LoadIo)
    ensures io.LoadOk? ==> Readable(io)
  {
  }

  lemma BlockIsSome(content: seq<byte>, start: nat, readAhead: nat)
    requires start < |content| && readAhead > 0
    ensures BlockOf(content, start, readAhead) != []
  {
  }

  // Where the get pointer goes in a window.
  function GetOffset(windowStart: nat, windowLen: nat, logical: nat): nat {
    if logical < windowStart then 0
    else if logical - windowStart > windowLen then windowLen
    else logical - windowStart
  }

  /** A refill dereferences the get pointer of any window that is not empty. For an honest reply that is
      inside the window exactly when the target is inside the object, so a server that turns to whole
      objects, or a cache switched on in mid-run, can make a refill at the end read past its window. */
  lemma DereferenceIsSafe(content: seq<byte>, readAhead: nat, start: nat, target: nat, partial: bool)
    requires start <= target < start + readAhead
    requires partial ==> start < |content|
    ensures var windowStart := if partial then start else 0;
      var windowLen := if partial then |BlockOf(content, start, readAhead)| else |content|;
      (windowLen > 0 ==> GetOffset(windowStart, windowLen, target) < windowLen) <==>
      (target < |content| || content == [])
  {
  }

  class S3Streambuf {
    const cfg: Config
    const uri: string
    const bucket: string
    const key: string
    const readAhead: nat
    const curl: bool                     // curl_ != nullptr
    const cache: Cache                   // g_disk_cache
    const serve: Server
    const credentials: nat -> bool       // whether the provider has credentials at the k-th load
    const loadIo: nat -> LoadIo          // what the file system does at the k-th load
    const storeIo: nat -> StoreIo

    var region: string
    var host: string
    var url: string
    var path: string
    var window: seq<byte>
    var windowStart: nat
    var windowLen: nat
    var reachedEof: bool
    var gptr: nat                        // relative to eback; a null get area is gptr == egptr == 0
    var egptr: nat
    var lastError: LoadError             // the thread's last error
    var sent: nat                        // requests sent
    var loads: nat                       // load_window calls
    ghost var redirects: nat             // how often the stream changed its region

    ghost const content: seq<byte>       // the object
    ghost const style: Style
    ghost const objects: Objects         // what every URI that uses the cache directory names
    ghost const uris: set<string>

    // The conditions of use: the server is honest, the cache directory is truthful for this stream's
    // read-ahead and free of collisions, and closing a block file loses nothing.
    ghost predicate Environment()
      reads cache
    {
      && readAhead > 0 && cfg.maxAttempts > 0
      && (forall k, req :: Honest(content, req, serve(k, req)))
      && cache.Valid()
      && uri in uris && objects(uri) == content && NoCollision(uris)
      && Truthful(cache.files, objects, uris, readAhead)
      && (forall k :: !storeIo(k).CloseLoses?)
    }

    // The server keeps its style, and the cache holds no blocks of an object whose server ignores ranges.
    ghost predicate Styled()
      reads cache`files
    {
      && (forall k, req :: InStyle(style, serve(k, req)))
      && (style.Whole? ==> forall start :: !Held(start))
    }

    // Every request for a range is answered.
    ghost predicate AlwaysAnswers() {
      forall k, req: Request :: req.first <= req.last ==> Answers(serve(k, req))
    }

    // Every request is answered and credentials are always there.
    ghost predicate Reliable() {
      curl && (forall k :: credentials(k)) && AlwaysAnswers()
    }

    ghost function World(): Setting
      reads cache`enabled
    {
      Setting(|content|, style, cache.enabled, readAhead)
    }

    ghost function Seen(): View
      reads this`windowStart, this`windowLen, this`reachedEof, this`gptr, this`lastError
    {
      View(windowStart, windowLen, reachedEof, CurPos(), lastError.Clean?)
    }

    function Target(): Endpoint
      reads this`host, this`url, this`path
    {
      Endpoint(host, url, path)
    }

    // cur_pos()
    function CurPos(): nat
      reads this`windowStart, this`gptr
    {
      windowStart + gptr
    }

    // The end-of-object flag is right.
    ghost predicate Sane()
      reads this`reachedEof, this`windowStart, this`windowLen
    {
      reachedEof ==> |content| <= windowStart + windowLen
    }

    ghost predicate Valid()
      reads this, cache
    {
      && Loadable() && Styled() && Area()
      && (lastError.Clean? ==> Sane())
      && (windowLen > 0 ==> lastError.Clean?)
    }

    // What a load needs; nothing is asked of the window.
    ghost predicate Loadable()
      reads this`region, this`host, this`url, this`path, cache
    {
      Environment() && Target() == BuildEndpoint(cfg, bucket, key, region)
    }

    // The get area covers the window, which is a part of the object: a full read-ahead unless it ends the
    // object, and aligned when chunks are.
    ghost predicate Area()
      reads this`window, this`windowStart, this`windowLen, this`reachedEof, this`gptr, this`egptr, cache`enabled
    {
      && readAhead > 0
      && egptr == windowLen && gptr <= egptr
      && (windowLen > 0 ==> windowLen == |window| && windowStart + windowLen <= |content|)
      && (windowLen > 0 ==> window == content[windowStart..windowStart + windowLen])
      && (windowLen > 0 && !reachedEof ==> windowLen == readAhead)
      && (style.Whole? && windowLen > 0 ==> reachedEof)
      && Placed()
    }

    ghost predicate Placed()
      requires readAhead > 0
      reads this`windowStart, cache`enabled
    {
      && (style.Ranges? && cache.enabled ==> windowStart % readAhead == 0)
      && (style.Whole? ==> windowStart == 0)
    }

    ghost function Lands(p: nat): nat
      requires readAhead > 0
      reads cache`enabled
    {
      Landing(|content|, style, cache.enabled, readAhead, p)
    }

    constructor (cfg: Config, uri: string, bucket: string, key: string, region: string, readAhead: nat,
                 curl: bool, cache: Cache, serve: Server, credentials: nat -> bool,
                 loadIo: nat -> LoadIo, storeIo: nat -> StoreIo,
                 ghost content: seq<byte>, ghost style: Style, ghost objects: Objects, ghost uris: set<string>)
      ensures this.cfg == cfg && this.uri == uri && this.readAhead == (if readAhead == 0 then 1 else readAhead)
      ensures this.curl == curl && this.cache == cache && this.serve == serve && this.credentials == credentials
      ensures this.content == content && this.style == style && this.objects == objects && this.uris == uris
      ensures this.loadIo == loadIo && this.storeIo == storeIo
      ensures windowLen == gptr == egptr == 0 && !reachedEof
      ensures CurPos() == 0 && lastError.Clean? && sent == loads == 0
      ensures Environment() ==> Loadable()
      ensures Environment() && Styled() ==> Valid()
    {
      var e := BuildEndpoint(cfg, bucket, key, region);
      this.cfg, this.uri, this.bucket, this.key, this.region := cfg, uri, bucket, key, region;
      this.readAhead := if readAhead == 0 then 1 else readAhead;
      this.curl, this.cache, this.serve, this.credentials := curl, cache, serve, credentials;
      this.loadIo, this.storeIo := loadIo, storeIo;
      this.content, this.style, this.objects, this.uris := content, style, objects, uris;
      host, url, path := e.host, e.url, e.path;
      window, windowStart, windowLen, reachedEof, gptr, egptr := [], 0, 0, false, 0, 0;
      lastError, sent, loads, redirects := Clean, 0, 0, 0;
    }

    // Places the get area after a fetch. `origin` is where the fetched bytes begin in the object.
    method InstallWindow(origin: nat, logical: nat, partial: bool)
      modifies this`windowStart, this`windowLen, this`reachedEof, this`gptr, this`egptr
      ensures windowStart == (if partial then origin else 0)
      ensures reachedEof == (if partial then |window| < readAhead else true)
      ensures windowLen == egptr == |window|
      ensures gptr == GetOffset(windowStart, windowLen, logical)
    {
      if partial {
        windowStart := origin;
        reachedEof := |window| < readAhead;
      } else {
        windowStart := 0;
        reachedEof := true;
      }
      windowLen := |window|;
      var goff := if logical >= windowStart then logical - windowStart else 0;
      if goff > windowLen {
        goff := windowLen;
      }
      gptr, egptr := goff, windowLen;
    }

    method Fail(error: LoadError)
      requires !error.Clean?
      modifies this`lastError, this`windowLen, this`gptr, this`egptr
      ensures lastError == error && windowLen == gptr == egptr == 0
      ensures readAhead > 0 && Placed() ==> Area()
    {
      lastError := error;
      windowLen := 0;
      gptr, egptr := 0, 0;
    }

    // The get area after a window of the object has been installed for `target`.
    ghost predicate Covers(target: nat)
      reads this`window, this`windowStart, this`windowLen, this`reachedEof, this`gptr, this`egptr, cache`enabled
    {
      && Area() && Sane()
      && CurPos() == Lands(target)
      && (gptr < egptr <==> target < |content|)
      && (target >= |content| ==> reachedEof)
      && (target >= |content| && style.Ranges? && (cache.enabled ==> target % readAhead == 0) ==> windowLen == 0)
    }

    lemma CoversArea(target: nat)
      requires Covers(target)
      ensures Area() && Sane()
    {
    }

    // Where a load for `target` starts: at its chunk when the cache is on.
    function StartFor(target: nat): nat
      requires readAhead > 0
      reads cache`enabled
    {
      if cache.enabled then Align(target, readAhead) else target
    }

    // The window that an honest reply of this code leaves; a block from the cache counts as a 206.
    ghost predicate Installed(code: int, start: nat, target: nat)
      reads this`window, this`windowStart, this`windowLen, this`reachedEof, this`gptr, this`egptr
    {
      && (code == 206 || code == 200 || code == 416)
      && (code == 206 ==>
            && start < |content| && window == BlockOf(content, start, readAhead) && windowLen == |window|
            && windowStart == start && (reachedEof <==> windowLen < readAhead))
      && (code == 200 ==> window == content && windowLen == |window| && windowStart == 0 && reachedEof)
      && (code == 416 ==> |content| <= start && windowLen == 0 && windowStart == start && reachedEof)
      && egptr == windowLen && gptr == GetOffset(windowStart, windowLen, target)
    }

    ghost predicate Fits(code: int) {
      if style.Ranges? then code != 200 else code == 200
    }

    // From a server that keeps its style, whatever was installed covers its target.
    lemma InstalledCovers(code: int, start: nat, target: nat)
      requires readAhead > 0 && start == StartFor(target) && Installed(code, start, target) && Fits(code)
      ensures Covers(target)
    {
      AlignFacts(target, readAhead);
    }

    lemma InstalledSeen(code: int, start: nat, target: nat)
      requires readAhead > 0 && start == StartFor(target) && Installed(code, start, target) && Fits(code)
      requires lastError.Clean?
      ensures Seen() == LoadedView(World(), target)
    {
      AlignFacts(target, readAhead);
    }

    // --- The outcome of a load ---

    // The request for the block at `start`, sent to a region.
    function RequestIn(region: string, start: nat): Request
      requires readAhead > 0
    {
      Request(BuildEndpoint(cfg, bucket, key, region), region, start, Wrap64(start + readAhead - 1))
    }

    predicate Redirects(reply: Reply, region: string) {
      && reply.rc.Ok? && !cfg.pathStyle && (reply.code == 301 || reply.code == 307 || reply.code == 400)
      && reply.regionHeader != "" && reply.regionHeader != region
    }

    predicate Retriable(reply: Reply) {
      IsRetriable(reply.rc) || (reply.rc.Ok? && IsRetriableStatus(reply.code))
    }

    // From the k-th request on: one redirect, and retries up to the configured attempts.
    function Deciding(start: nat, k: nat, region: string, redirected: bool, attempt: nat): Decision
      requires readAhead > 0 && attempt < cfg.maxAttempts
      decreases cfg.maxAttempts - attempt, !redirected
    {
      var reply := serve(k, RequestIn(region, start));
      if Answers(reply) then Decision(k, region, reply)
      else if Redirects(reply, region) && !redirected then Deciding(start, k + 1, reply.regionHeader, true, attempt)
      else if Retriable(reply) && attempt + 1 < cfg.maxAttempts then
        Deciding(start, k + 1, region, redirected, attempt + 1)
      else Decision(k, region, reply)
    }

    lemma DecidingStep(start: nat, k: nat, region: string, redirected: bool, attempt: nat)
      requires readAhead > 0 && attempt < cfg.maxAttempts
      ensures var reply := serve(k, RequestIn(region, start));
        Deciding(start, k, region, redirected, attempt) ==
        if Answers(reply) then Decision(k, region, reply)
        else if Redirects(reply, region) && !redirected then Deciding(start, k + 1, reply.regionHeader, true, attempt)
        else if Retriable(reply) && attempt + 1 < cfg.maxAttempts then
          Deciding(start, k + 1, region, redirected, attempt + 1)
        else Decision(k, region, reply)
    {
    }

    // The cache serves the next load of the block at `start`.
    predicate OnDisk(start: nat)
      reads this`loads, cache`enabled, cache`files
    {
      cache.enabled && Held(start) && Readable(loadIo(loads + 1))
    }

    // The decision of the next load's request loop.
    function Decided(start: nat): Decision
      requires readAhead > 0 && cfg.maxAttempts > 0
      reads this`sent, this`region
    {
      Deciding(start, sent, region, false, 0)
    }

    // Exactly when the next load for `target` succeeds.
    predicate Succeeds(target: nat)
      requires readAhead > 0 && cfg.maxAttempts > 0
      reads this`sent, this`region, this`loads, cache`enabled, cache`files
    {
      var start := StartFor(target);
      curl && (OnDisk(start) || (credentials(loads + 1) && Answers(Decided(start).reply)))
    }

    // The range and the signature of one request.
    function RequestFor(start: nat): Request
      requires readAhead > 0
      reads this`region, this`host, this`url, this`path
    {
      Request(Target(), region, start, Wrap64(start + readAhead - 1))
    }

    // The disk cache holds the block at `start`.
    predicate Held(start: nat)
      reads cache`files
    {
      PathFor(uri, start) in cache.files
    }

    // Tries the disk cache for the block at `start`. What it loads is that block of the object.
    method Probe(start: nat) returns (hit: bool)
      requires Environment() && IsStart(start, readAhead)
      modifies this`window, cache
      ensures Environment() && cache.enabled == old(cache.enabled)
      ensures forall s :: Held(s) <==> old(Held(s))
      ensures hit ==> start < |content| && window == BlockOf(content, start, readAhead) && Held(start)
      ensures hit <==> old(Held(start)) && Readable(loadIo(loads))
    {
      hide PathFor, IsBlock, BlockOf, Honest, NoCollision, Djb2;
      Sizes();
      hit, window := cache.TryLoad(uri, start, loadIo(loads));
      TruthOfPart(old(cache.files), cache.files, objects, uris, readAhead);
      assert HoldsBlock(old(cache.files), objects, readAhead, uri, start);
      if start < |content| {
        BlockIsSome(content, start, readAhead);
      }
    }

    // The file system lets the cache keep a block.
    predicate Keeps()
      reads this`loads, cache`maxBlocks
    {
      storeIo(loads).StoreOk? && cache.maxBlocks > 0
    }

    // Writes a block of the object to the disk cache.
    method Keep(start: nat)
      requires Environment() && IsStart(start, readAhead)
      requires start < |content| && window == BlockOf(content, start, readAhead)
      modifies cache`files, cache`clock
      ensures Environment()
      ensures Keeps() ==> Held(start)
    {
      hide PathFor, IsBlock, BlockOf, Honest, Trimmed, Settled, Truthful, NoCollision;
      cache.Store(uri, start, window, storeIo(loads));
      BlockNames(uri, start, "");
      if Keeps() {
        StoredBlockSurvives(old(cache.files), cache.files, PathFor(uri, start), window, storeIo(loads),
                            cache.clock, cache.maxBlocks);
      }
      StoredBlockIsTrue(old(cache.files), cache.files, storeIo(loads), cache.clock, cache.maxBlocks,
                        objects, uris, readAhead, uri, start);
    }

    /** Makes the window cover `target`. A failure leaves an empty window at the old start; the end-of-object
        flag keeps its old value. At most one redirect, and besides it at most the configured attempts, are
        sent; nothing when the cache holds the block, and afterwards it does. */
    method LoadWindow(target: nat) returns (ok: bool, ghost code: int)
      requires Loadable() && target + readAhead <= 0x1_0000_0000_0000_0000
      modifies this, cache
      ensures Loadable() && cache.enabled == old(cache.enabled)
      ensures ok ==> lastError.Clean? && Installed(code, StartFor(target), target)
      ensures !ok ==> !lastError.Clean? && windowLen == gptr == egptr == 0
      ensures !ok ==> windowStart == old(windowStart) && reachedEof == old(reachedEof)
      ensures old(Styled()) ==> Styled() && (ok ==> Covers(target))
      ensures old(Styled()) && (ok || old(Placed())) ==> Valid()
      ensures ok <==> old(Succeeds(target))
      ensures loads == old(loads) + if curl then 1 else 0
      ensures old(Styled()) && ok ==> Seen() == LoadedView(World(), target)
      ensures !ok ==> Seen() == FailedView(old(Seen()))
      ensures if !curl || old(OnDisk(StartFor(target))) || !credentials(loads)
              then sent == old(sent) && region == old(region)
              else sent == old(Decided(StartFor(target))).k + 1 && region == old(Decided(StartFor(target))).region
      ensures !ok ==> lastError == if !curl then NoHandle
                                   else if !credentials(loads) then NoCredentials
                                   else ErrorOf(old(Decided(StartFor(target))).reply)
      ensures Reliable() ==> ok
      ensures var first := serve(old(sent), old(RequestFor(StartFor(target))));
        curl && credentials(loads) && Answers(first) && (cache.enabled ==> !old(Held(StartFor(target)))) ==>
          ok && code == first.code && sent == old(sent) + 1
      ensures old(redirects) <= redirects <= old(redirects) + 1
      ensures sent <= old(sent) + cfg.maxAttempts + (redirects - old(redirects))
      ensures redirects == old(redirects) ==> region == old(region) && Target() == old(Target())
      ensures curl && cache.enabled && old(Held(StartFor(target))) && loadIo(loads).LoadOk? ==>
                ok && sent == old(sent)
      ensures ok && code == 206 && cache.enabled && Keeps() ==> Held(StartFor(target))
    {
      hide BuildEndpoint, Align, BlockOf, S3Streambuf.Environment, S3Streambuf.Covers, S3Streambuf.Target;
      hide S3Streambuf.AlwaysAnswers, S3Streambuf.Area, S3Streambuf.Placed, S3Streambuf.Held, S3Streambuf.Keeps;
      hide S3Streambuf.Styled, S3Streambuf.Installed, S3Streambuf.Deciding, S3Streambuf.Decided, LoadedView;
      hide S3Streambuf.RequestFor, S3Streambuf.RequestIn, ErrorOf, Readable;
      code := 0;
      Sizes();
      if !curl {
        Fail(NoHandle);
        return false, code;
      }
      var cacheOn := cache.enabled;
      AlignFacts(target, readAhead);
      var start := if cacheOn then Align(target, readAhead) else target;
      RangeIsForward(start);
      loads := loads + 1;
      LoadedIsReadable(loadIo(loads));
      if cacheOn {
        ok := FromCache(start, target);
        if ok {
          return true, 206;
        }
      }
      if !credentials(loads) {
        Fail(NoCredentials);
        return false, code;
      }
      Answered(sent, RequestFor(start));
      ok, code := Fetch(start, target);
      if ok && Fits(code) {
        InstalledCovers(code, start, target);
        InstalledSeen(code, start, target);
        CoversArea(target);
      }
    }

    // The window from the disk cache, when the block is there.
    method FromCache(start: nat, target: nat) returns (hit: bool)
      requires Loadable() && cache.enabled && start == StartFor(target) && IsStart(start, readAhead)
      modifies this`window, this`windowStart, this`windowLen, this`reachedEof, this`gptr, this`egptr
      modifies this`lastError, cache
      ensures Loadable() && cache.enabled && (old(Styled()) ==> Styled())
      ensures hit ==> lastError.Clean? && Installed(206, start, target) && Held(start)
      ensures Held(start) <==> old(Held(start))
      ensures hit && Styled() ==> Covers(target) && Valid() && Seen() == LoadedView(World(), target)
      ensures !hit ==> windowStart == old(windowStart) && reachedEof == old(reachedEof)
      ensures hit <==> old(Held(start)) && Readable(loadIo(loads))
    {
      hide BuildEndpoint, Align, BlockOf, S3Streambuf.Environment, S3Streambuf.Covers, S3Streambuf.Target;
      Sizes();
      hit := Probe(start);
      if hit {
        InstallWindow(start, target, true);
        lastError := Clean;
        if style.Ranges? {
          InstalledCovers(206, start, target);
          InstalledSeen(206, start, target);
          CoversArea(target);
        }
      }
    }

    lemma Sizes()
      requires Environment()
      ensures readAhead > 0 && cfg.maxAttempts > 0
    {
    }

    lemma RangeIsForward(start: nat)
      requires readAhead > 0 && start + readAhead <= 0x1_0000_0000_0000_0000
      ensures RequestFor(start).first <= RequestFor(start).last
    {
    }

    // What Environment says of one request.
    lemma Answered(k: nat, req: Request)
      requires Environment()
      ensures Honest(content, req, serve(k, req))
      ensures Styled() ==> InStyle(style, serve(k, req))
      ensures AlwaysAnswers() && req.first <= req.last ==> Answers(serve(k, req))
    {
    }

    // What a reply to the request for the block at `start` tells.
    lemma ReplyTells(start: nat, req: Request, reply: Reply)
      requires readAhead > 0 && start + readAhead <= 0x1_0000_0000_0000_0000
      requires req.first == start && req.last == Wrap64(start + readAhead - 1)
      requires Honest(content, req, reply) && reply.rc.Ok?
      ensures reply.code == 206 ==> start < |content| && reply.body == BlockOf(content, start, readAhead)
      ensures reply.code == 200 ==> reply.body == content
      ensures reply.code == 416 ==> |content| <= start
      ensures Answers(reply) && InStyle(style, reply) ==> Fits(reply.code)
    {
    }

    method Retarget(region: string)
      modifies this`region, this`host, this`url, this`path, this`redirects
      ensures this.region == region && Target() == BuildEndpoint(cfg, bucket, key, region)
      ensures redirects == old(redirects) + 1
    {
      this.region := region;
      var e := BuildEndpoint(cfg, bucket, key, region);
      host, url, path := e.host, e.url, e.path;
      redirects := redirects + 1;
    }

    lemma RequestedIn(start: nat)
      requires Loadable() && readAhead > 0
      ensures RequestFor(start) == RequestIn(region, start)
    {
    }

    // The request loop: retries with backoff, and one redirect to the region the server names.
    method Fetch(start: nat, target: nat) returns (ok: bool, ghost code: int)
      requires Loadable() && readAhead > 0 && cfg.maxAttempts > 0
      requires start == StartFor(target) && start + readAhead <= 0x1_0000_0000_0000_0000
      modifies this, cache
      ensures Loadable() && cache.enabled == old(cache.enabled) && loads == old(loads)
      ensures ok ==> lastError.Clean? && Installed(code, start, target)
      ensures !ok ==> !lastError.Clean? && windowLen == gptr == egptr == 0
      ensures !ok ==> windowStart == old(windowStart) && reachedEof == old(reachedEof)
      ensures !ok && Placed() ==> Area()
      ensures old(Styled()) ==> Styled() && (ok ==> Fits(code))
      ensures var d := old(Decided(start));
        && sent == d.k + 1 && region == d.region && (ok <==> Answers(d.reply))
        && if ok then code == d.reply.code else lastError == ErrorOf(d.reply)
      ensures var first := serve(old(sent), old(RequestFor(start)));
        Answers(first) ==> ok && code == first.code && sent == old(sent) + 1
      ensures old(redirects) <= redirects <= old(redirects) + 1
      ensures sent <= old(sent) + cfg.maxAttempts + (redirects - old(redirects))
      ensures redirects == old(redirects) ==> region == old(region) && Target() == old(Target())
      ensures ok && code == 206 && cache.enabled && Keeps() ==> Held(start)
    {
      hide BuildEndpoint, Honest, InStyle, IsRetriable, IsRetriableStatus, BlockOf, Align, Wrap64;
      hide S3Streambuf.Environment, S3Streambuf.Target, S3Streambuf.Installed, S3Streambuf.Styled;
      hide S3Streambuf.Area, S3Streambuf.Placed, S3Streambuf.Held, S3Streambuf.Keeps, S3Streambuf.Fits, ErrorOf;
      hide S3Streambuf.Deciding, S3Streambuf.RequestIn, S3Streambuf.Redirects, S3Streambuf.Retriable;
      code := 0;
      var redirected, attempt := false, 0;
      while true
        invariant Loadable() && cache.enabled == old(cache.enabled) && loads == old(loads)
        invariant windowStart == old(windowStart) && reachedEof == old(reachedEof)
        invariant cache.files == old(cache.files)
        invariant redirects == old(redirects) + if redirected then 1 else 0
        invariant attempt < cfg.maxAttempts && sent == old(sent) + attempt + (redirects - old(redirects))
        invariant redirects == old(redirects) ==> region == old(region) && Target() == old(Target())
        invariant Answers(serve(old(sent), old(RequestFor(start)))) ==> !redirected && attempt == 0
        invariant old(Decided(start)) == Deciding(start, sent, region, redirected, attempt)
        decreases cfg.maxAttempts - attempt, !redirected
      {
        var req := RequestFor(start);
        var reply := serve(sent, req);
        RequestedIn(start);
        DecidingStep(start, sent, region, redirected, attempt);
        Answered(sent, req);
        sent := sent + 1;
        window := reply.body;
        if Answers(reply) {
          ReplyTells(start, req, reply);
          Received(start, target, reply.code);
          return true, reply.code;
        }
        if Redirects(reply, region) && !redirected {
          Retarget(reply.regionHeader);
          redirected := true;
          continue;
        }
        attempt := attempt + 1;
        if Retriable(reply) && attempt < cfg.maxAttempts {
          var ceiling := BackoffCeiling(attempt);
          continue;
        }
        Fail(ErrorOf(reply));
        return false, code;
      }
    }

    // A 200, 206 or 416: a partial block goes to the cache when it is on, and the window is installed.
    method Received(start: nat, target: nat, code: int)
      requires Environment() && start == StartFor(target) && start + readAhead <= 0x1_0000_0000_0000_0000
      requires code == 206 || code == 200 || code == 416
      requires code == 206 ==> start < |content| && window == BlockOf(content, start, readAhead)
      requires code == 200 ==> window == content
      requires code == 416 ==> |content| <= start
      modifies this`windowStart, this`windowLen, this`reachedEof, this`gptr, this`egptr, this`lastError
      modifies cache`files, cache`clock
      ensures Environment() && lastError.Clean? && Installed(code, start, target)
      ensures old(Styled()) && Fits(code) ==> Styled()
      ensures code == 206 && cache.enabled && Keeps() ==> Held(start)
    {
      hide BlockOf, S3Streambuf.Environment, S3Streambuf.Held, S3Streambuf.Keeps;
      Sizes();
      AlignFacts(target, readAhead);
      if code == 200 || code == 206 {
        if cache.enabled && code == 206 {
          Keep(start);
        }
        InstallWindow(start, target, code == 206);
      } else {
        windowStart := start;
        windowLen := 0;
        reachedEof := true;
        gptr, egptr := 0, 0;
      }
      lastError := Clean;
    }

    predicate NeedsLoad()
      reads this`gptr, this`egptr, this`reachedEof
    {
      gptr >= egptr && !reachedEof
    }

    // What a refill makes of the state, and what a seek does.
    ghost function Refilled(): View
      requires readAhead > 0 && cfg.maxAttempts > 0
      reads this, cache
    {
      RefilledView(World(), Seen(), Succeeds(windowStart + windowLen))
    }

    ghost function Sought(target: nat): View
      requires readAhead > 0 && cfg.maxAttempts > 0
      reads this, cache
    {
      SoughtView(World(), Seen(), target, Succeeds(target))
    }

    // std::streambuf::underflow: the byte at the get pointer, refilling when the get area is used up.
    method Underflow() returns (c: Option<byte>)
      requires Valid() && CurPos() + readAhead <= 0x1_0000_0000_0000_0000
      modifies this, cache
      ensures Valid() && cache.enabled == old(cache.enabled)
      ensures c.Some? ==> old(CurPos()) < |content| && c.value == content[old(CurPos())]
      ensures Seen() == old(Refilled()) && (c.Some? <==> gptr < egptr) && egptr == windowLen
      ensures loads == old(loads) + if old(NeedsLoad()) && curl then 1 else 0
      ensures c.Some? ==> CurPos() == old(CurPos())
      ensures c.None? && lastError.Clean? ==> |content| <= old(CurPos()) && CurPos() == old(CurPos())
      ensures !lastError.Clean? ==> c.None? && CurPos() == windowStart == old(windowStart)
      ensures Reliable() && old(lastError.Clean?) ==> lastError.Clean?
    {
      hide BuildEndpoint, S3Streambuf.Environment, S3Streambuf.Target, S3Streambuf.Reliable, S3Streambuf.Succeeds;
      hide LoadedView, Landing, S3Streambuf.Styled, S3Streambuf.Installed;
      if gptr < egptr {
        return Some(window[gptr]);
      }
      if reachedEof {
        return None;
      }
      var next := windowStart + windowLen;
      MultipleNext(windowStart, readAhead);
      var ok, _ := LoadWindow(next);
      if !ok {
        return None;
      }
      LandingIsExact(|content|, style, cache.enabled, readAhead, next);
      EmptyIsEof(World(), next);
      if windowLen == 0 {
        reachedEof := true;
        return None;
      }
      return Some(window[gptr]);
    }

    // std::streambuf::sgetc.
    method Peek() returns (c: Option<byte>)
      requires Valid() && CurPos() + readAhead <= 0x1_0000_0000_0000_0000
      modifies this, cache
      ensures Valid() && cache.enabled == old(cache.enabled)
      ensures c.Some? ==> old(CurPos()) < |content| && c.value == content[old(CurPos())]
      ensures Seen() == old(Refilled()) && (c.Some? <==> gptr < egptr) && egptr == windowLen
      ensures c.Some? ==> CurPos() == old(CurPos())
      ensures c.None? && lastError.Clean? ==> |content| <= old(CurPos()) && CurPos() == old(CurPos())
      ensures !lastError.Clean? ==> c.None? && CurPos() == windowStart == old(windowStart)
      ensures Reliable() && old(lastError.Clean?) ==> lastError.Clean?
    {
      hide S3Streambuf.Environment, S3Streambuf.Target, S3Streambuf.Reliable, S3Streambuf.Succeeds, LoadedView;
      if gptr < egptr {
        return Some(window[gptr]);
      }
      c := Underflow();
    }

    // std::streambuf::sbumpc.
    method Get() returns (c: Option<byte>)
      requires Valid() && CurPos() + readAhead <= 0x1_0000_0000_0000_0000
      modifies this, cache
      ensures Valid() && cache.enabled == old(cache.enabled)
      ensures c.Some? ==> old(CurPos()) < |content| && c.value == content[old(CurPos())]
      ensures var v := old(Refilled());
        && (c.Some? <==> v.pos < v.start + v.len)
        && Seen() == if c.Some? then v.(pos := v.pos + 1) else v
      ensures loads == old(loads) + if old(NeedsLoad()) && curl then 1 else 0
      ensures c.Some? ==> CurPos() == old(CurPos()) + 1
      ensures c.None? && lastError.Clean? ==> |content| <= old(CurPos()) && CurPos() == old(CurPos())
      ensures !lastError.Clean? ==> c.None? && CurPos() == windowStart == old(windowStart)
      ensures Reliable() && old(lastError.Clean?) ==> lastError.Clean?
    {
      hide S3Streambuf.Environment, S3Streambuf.Target, S3Streambuf.Reliable, S3Streambuf.Succeeds, LoadedView;
      if gptr < egptr {
        gptr := gptr + 1;
        return Some(window[gptr - 1]);
      }
      c := Underflow();
      if c.Some? {
        gptr := gptr + 1;
      }
    }

    // Inside the live window, its end included.
    predicate InWindow(target: nat)
      reads this`windowStart, this`windowLen
    {
      windowLen > 0 && windowStart <= target <= windowStart + windowLen
    }

    /** An absolute seek: inside the live window only the get pointer moves. */
    method SeekPos(sp: int, forInput: bool) returns (r: int)
      requires Valid() && -0x8000_0000_0000_0000 <= sp < 0x8000_0000_0000_0000
      requires Unsigned(sp) + readAhead <= 0x1_0000_0000_0000_0000
      modifies this, cache
      ensures Valid() && cache.enabled == old(cache.enabled)
      ensures Seen() == if forInput then old(Sought(Unsigned(sp))) else old(Seen())
      ensures !forInput ==> r == -1 && lastError == old(lastError)
      ensures forInput ==> r == if lastError.Clean? then sp else -1
      ensures !forInput || old(InWindow(Unsigned(sp))) ==> loads == old(loads)
      ensures forInput && lastError.Clean? ==> CurPos() == Lands(Unsigned(sp))
      ensures forInput && !lastError.Clean? ==> CurPos() == windowStart == old(windowStart)
      ensures Reliable() && forInput ==> lastError.Clean?
    {
      hide BuildEndpoint, S3Streambuf.Environment, S3Streambuf.Target, S3Streambuf.Reliable, S3Streambuf.Succeeds;
      hide LoadedView;
      if !forInput {
        return -1;
      }
      lastError := Clean;
      var target := Unsigned(sp);
      if InWindow(target) {
        gptr, egptr := target - windowStart, windowLen;
        return sp;
      }
      var ok, _ := LoadWindow(target);
      r := if ok then sp else -1;
    }

    method SeekOff(off: int, dir: SeekDir, forInput: bool) returns (r: int)
      requires Valid() && CurPos() < 0x8000_0000_0000_0000
      requires var target := (if dir.Cur? then CurPos() else 0) + off;
        dir.End? || target < 0 || (target < 0x8000_0000_0000_0000 && target + readAhead <= 0x1_0000_0000_0000_0000)
      modifies this, cache
      ensures Valid() && cache.enabled == old(cache.enabled)
      ensures var target := (if dir.Cur? then old(CurPos()) else 0) + off;
        if !forInput || dir.End? || target < 0 then
          r == -1 && Seen() == old(Seen()) && lastError == old(lastError)
        else
          && Seen() == old(Sought(target))
          && if lastError.Clean? then r == target && CurPos() == Lands(target)
             else r == -1 && CurPos() == windowStart == old(windowStart)
      ensures Reliable() && old(lastError.Clean?) ==> lastError.Clean?
    {
      hide BuildEndpoint, S3Streambuf.Environment, S3Streambuf.Target, S3Streambuf.Reliable, S3Streambuf.Succeeds;
      hide S3Streambuf.Sought;
      if !forInput {
        return -1;
      }
      var base := 0;
      if dir.Beg? {
        base := 0;
      } else if dir.Cur? {
        base := CurPos();
      } else {
        return -1;
      }
      var target := base + off;
      if target < 0 {
        return -1;
      }
      r := SeekPos(target, forInput);
    }
  }

  // --- Streams that exist ---

  // A fresh stream over a fresh cache, with a file system that works.
  method FreshStream(cfg: Config, location: Location, content: seq<byte>, readAhead: nat, cacheOn: bool, serve: Server,
                     credentials: nat -> bool)
    returns (buf: S3Streambuf)
    requires cfg.maxAttempts > 0 && readAhead > 0 && forall k, req :: Honest(content, req, serve(k, req))
    ensures fresh(buf) && fresh(buf.cache) && buf.Loadable()
    ensures (forall k, req :: InStyle(Ranges, serve(k, req))) ==> buf.Valid()
    ensures buf.content == content && buf.readAhead == readAhead && buf.serve == serve && buf.style.Ranges?
    ensures buf.cfg == cfg && buf.cache.enabled == cacheOn && buf.curl && buf.credentials == credentials
    ensures !buf.reachedEof && buf.windowLen == buf.gptr == buf.egptr == 0
    ensures buf.CurPos() == 0 && buf.lastError.Clean? && buf.sent == 0 && buf.loads == 0
  {
    var cache := new Cache();
    if cacheOn {
      var ok := cache.Configure(500, map[], true);
    }
    buf := new S3Streambuf(cfg, location.uri, location.bucket, location.key, location.region, readAhead, true, cache,
                           serve, credentials, _ => LoadOk, _ => StoreOk,
                           content, Ranges, _ => content, {location.uri});
  }

  datatype Location = Location(uri: string, bucket: string, key: string, region: string)

  /** For every object and read-ahead, with the cache on or off, there is a stream that meets all the
      conditions of use and on which nothing can fail. */
  method ReliableStream(cfg: Config, location: Location, content: seq<byte>, readAhead: nat, cacheOn: bool)
    returns (buf: S3Streambuf)
    requires cfg.maxAttempts > 0 && readAhead > 0
    ensures fresh(buf) && fresh(buf.cache) && buf.Valid() && buf.Reliable() && buf.style.Ranges?
    ensures buf.content == content && buf.readAhead == readAhead && buf.cache.enabled == cacheOn
    ensures buf.CurPos() == 0 && buf.lastError.Clean?
  {
    hide S3Streambuf.Valid, S3Streambuf.Loadable;
    buf := FreshStream(cfg, location, content, readAhead, cacheOn, RangeServer(content), _ => true);
  }

  // --- Streams that break ---

  // The get area is used up by a full window that ends the object, so a refill will ask for more.
  ghost predicate AtTheEnd(buf: S3Streambuf)
    reads buf
  {
    && buf.windowLen == buf.readAhead && buf.windowStart + buf.windowLen == |buf.content|
    && buf.gptr == buf.egptr && !buf.reachedEof
  }

  // A fresh stream that has loaded the last read-ahead of its object, with the cache off, and consumed it.
  method ReadLastWindow(cfg: Config, location: Location, content: seq<byte>, readAhead: nat, serve: Server)
    returns (buf: S3Streambuf)
    requires cfg.maxAttempts > 0 && 0 < readAhead <= |content| < 0x4000_0000_0000_0000
    requires serve == RangeServer(content) || serve == TurningServer(content)
    ensures fresh(buf) && fresh(buf.cache) && buf.Loadable() && AtTheEnd(buf)
    ensures buf.content == content && buf.readAhead == readAhead && buf.serve == serve && buf.style.Ranges?
    ensures buf.sent > 0 && !buf.cache.enabled && buf.curl && forall k :: buf.credentials(k)
  {
    hide BuildEndpoint, S3Streambuf.Loadable, S3Streambuf.Styled, S3Streambuf.Covers, S3Streambuf.Valid;
    buf := FreshStream(cfg, location, content, readAhead, false, serve, _ => true);
    var start := |content| - readAhead;
    buf.RangeIsForward(start);
    ghost var req := buf.RequestFor(start);
    assert serve(0, req).code == 206 && Answers(serve(0, req));
    var ok, code := buf.LoadWindow(start);
    assert buf.Installed(206, start, start);
    buf.gptr := buf.egptr;
  }

  /** A server that turns to whole objects: after a full window that ends the object, the refill leaves a
      window that is not empty and whose get pointer is at its end, and `underflow` then dereferences it. */
  method WholeReplyAtTheEnd(cfg: Config, location: Location, content: seq<byte>, readAhead: nat)
    returns (buf: S3Streambuf)
    requires cfg.maxAttempts > 0 && 0 < readAhead <= |content| < 0x4000_0000_0000_0000
    ensures buf.windowLen == buf.gptr == buf.egptr == |content| > 0
  {
    hide BuildEndpoint, S3Streambuf.Loadable, S3Streambuf.Styled, S3Streambuf.Covers, S3Streambuf.Valid;
    buf := ReadLastWindow(cfg, location, content, readAhead, TurningServer(content));
    var ok, code := buf.LoadWindow(buf.windowStart + buf.windowLen);
    assert ok && code == 200;
  }

  /** The cache switched on in mid-run, with a server that serves ranges throughout: the same happens when the
      object does not end at a chunk boundary. */
  method CacheOnAtTheEnd(cfg: Config, location: Location, content: seq<byte>, readAhead: nat)
    returns (buf: S3Streambuf)
    requires cfg.maxAttempts > 0 && 0 < readAhead <= |content| < 0x4000_0000_0000_0000
    requires |content| % readAhead != 0
    ensures buf.windowLen == buf.gptr == buf.egptr == |content| % readAhead > 0
  {
    hide BuildEndpoint, S3Streambuf.Loadable, S3Streambuf.Styled, S3Streambuf.Covers, S3Streambuf.Valid;
    hide S3Streambuf.Area, Align, BlockOf;
    buf := ReadLastWindow(cfg, location, content, readAhead, RangeServer(content));
    SwitchOn(buf);
    AlignFacts(|content|, readAhead);
    buf.RangeIsForward(buf.StartFor(|content|));
    var ok, code := buf.LoadWindow(buf.windowStart + buf.windowLen);
    assert buf.Installed(206, buf.StartFor(|content|), |content|);
    LastBlock(content, readAhead);
  }

  lemma LastBlock(content: seq<byte>, readAhead: nat)
    requires 0 < readAhead && |content| % readAhead != 0
    ensures |BlockOf(content, Align(|content|, readAhead), readAhead)| == |content| % readAhead
  {
    AlignFacts(|content|, readAhead);
  }

  method SwitchOn(buf: S3Streambuf)
    requires buf.Loadable()
    modifies buf.cache
    ensures buf.Loadable() && buf.cache.enabled && buf.cache.files == map[]
  {
    hide BuildEndpoint, Honest;
    var on := buf.cache.Configure(500, map[], true);
  }

  lemma RangeLoads(buf: S3Streambuf, target: nat)
    requires buf.readAhead > 0 && buf.cfg.maxAttempts > 0 && buf.curl && !buf.cache.enabled
    requires buf.serve == RangeServer(buf.content) && target + buf.readAhead <= 0x1_0000_0000_0000_0000
    ensures buf.Succeeds(target) <==> buf.credentials(buf.loads + 1)
  {
    buf.DecidingStep(target, buf.sent, buf.region, false, 0);
    var req := buf.RequestIn(buf.region, target);
    assert req.first <= req.last;
  }

  lemma EndsWithWindow(buf: S3Streambuf)
    requires buf.Valid()
    ensures buf.egptr == buf.windowLen
  {
  }

  // A stream on which the credentials are missing at the second load, at its second byte.
  method SecondByte(cfg: Config, location: Location, content: seq<byte>, readAhead: nat) returns (buf: S3Streambuf)
    requires cfg.maxAttempts > 0 && 0 < readAhead < |content| < 0x4000_0000_0000_0000
    ensures fresh(buf) && fresh(buf.cache) && buf.Valid() && buf.Seen() == View(0, readAhead, false, 1, true)
    ensures buf.content == content && buf.readAhead == readAhead && buf.serve == RangeServer(content)
    ensures buf.curl && !buf.cache.enabled && buf.loads == 1 && buf.style.Ranges? && buf.cfg == cfg
    ensures forall k :: buf.credentials(k) <==> k != 2
  {
    hide BuildEndpoint, S3Streambuf.Covers, S3Streambuf.Installed, S3Streambuf.Deciding, S3Streambuf.Valid;
    hide S3Streambuf.Environment, S3Streambuf.Styled, S3Streambuf.Reliable, S3Streambuf.Target, S3Streambuf.Succeeds;
    buf := FreshStream(cfg, location, content, readAhead, false, RangeServer(content), k => k != 2);
    RangeLoads(buf, 0);
    var first := buf.Get();
  }

  /** A stream that moves back: of an object longer than the read-ahead, the first window is consumed and
      credentials are missing at the second load. That refill fails, the position goes from the read-ahead to
      the window's start, and the next byte read is the object's first once more. */
  method ReadsTwice(cfg: Config, location: Location, content: seq<byte>, readAhead: nat)
    returns (buf: S3Streambuf, refused: Option<byte>, again: Option<byte>)
    requires cfg.maxAttempts > 0 && 0 < readAhead < |content| < 0x4000_0000_0000_0000
    ensures refused.None? && again == Some(content[0]) && buf.CurPos() == 1
  {
    hide BuildEndpoint, S3Streambuf.Covers, S3Streambuf.Installed, S3Streambuf.Deciding, S3Streambuf.Valid;
    hide S3Streambuf.Environment, S3Streambuf.Styled, S3Streambuf.Reliable, S3Streambuf.Target, S3Streambuf.Succeeds;
    buf := SecondByte(cfg, location, content, readAhead);
    var sought := buf.SeekPos(readAhead, true);
    EndsWithWindow(buf);
    RangeLoads(buf, readAhead);
    refused := buf.Get();
    RangeLoads(buf, 0);
    again := buf.Get();
  }
}
