/** The cache directory refines an LRU list: with a clock that never repeats, the block files are always
    the most recently used ones.
 */
module CacheLru {
  import opened Bytes
  import opened Recency
  import opened DiskCache

  // The names of `l` are files, listed by falling date.
  ghost predicate Dated(files: Dir, l: seq<string>) {
    && (forall n :: n in l ==> n in files)
    && (forall i, j :: 0 <= i < j < |l| ==> files[l[i]].mtime > files[l[j]].mtime)
  }

  // `l` lists the block files of the directory, the one dated last in front.
  ghost predicate NewestFirst(files: Dir, l: seq<string>) {
    && Distinct(l)
    && (forall n :: n in l <==> n in Blocks(files))
    && Dated(files, l)
  }

  lemma SubsetSize<T>(a: set<T>, b: set<T>)
    requires a <= b
    ensures |a| <= |b|
    ensures |a| == |b| ==> a == b
  {
    assert |b - a| + |a| == |b| by {
      assert (b - a) + a == b;
    }
  }

  lemma WithinCapacity(files: Dir, max: nat)
    requires Settled(files, max) && forall n :: n in files ==> files[n].mtime < MAX_TIME
    ensures |Blocks(files)| <= max
  {
    assert Blocks(files) == {} || exists n :: n in Blocks(files);
  }

  /** Eviction deletes exactly as many blocks as there are too many of, and never one that is newer than a
      survivor. */
  lemma EvictionIsExact(before: Dir, after: Dir, max: nat)
    requires Trimmed(before, after, max) && Settled(after, max)
    requires forall n :: n in before ==> before[n].mtime < MAX_TIME
    ensures |Blocks(before) - Blocks(after)| == if |Blocks(before)| > max then |Blocks(before)| - max else 0
    ensures forall v, s :: v in Blocks(before) - Blocks(after) && s in Blocks(after) ==>
              before[v].mtime <= before[s].mtime
  {
    AfterSize(before, after, max);
    SubsetSize(Blocks(after), Blocks(before));
    assert |Blocks(before) - Blocks(after)| == |Blocks(before)| - |Blocks(after)|;
  }

  /** The block dated last survives its own eviction pass. */
  lemma NewestSurvives(before: Dir, after: Dir, max: nat, newest: string)
    requires Trimmed(before, after, max) && max > 0
    requires newest in Blocks(before)
    requires forall n :: n in Blocks(before) && n != newest ==> before[n].mtime < before[newest].mtime
    ensures newest in Blocks(after)
  {
  }

  function Elements(l: seq<string>): set<string> { set x | x in l }

  lemma {:induction false} DistinctSize(l: seq<string>)
    requires Distinct(l)
    ensures |Elements(l)| == |l|
  {
    if l != [] {
      var rest := l[..|l| - 1];
      DistinctSize(rest);
      assert Elements(l) == Elements(rest) + {l[|l| - 1]};
      assert l[|l| - 1] !in rest;
    }
  }

  /** Eviction cuts the list down to capacity. */
  lemma EvictionTruncates(before: Dir, after: Dir, max: nat, l: seq<string>)
    requires Trimmed(before, after, max) && Settled(after, max)
    requires forall n :: n in before ==> before[n].mtime < MAX_TIME
    requires NewestFirst(before, l)
    ensures NewestFirst(after, Take(l, max))
  {
    var kept := Take(l, max);
    DistinctSize(l);
    assert Elements(l) == Blocks(before);
    AfterSize(before, after, max);
    assert |Blocks(after)| == |kept|;
    forall i | 0 <= i < |kept|
      ensures kept[i] in Blocks(after)
    {
      SurvivorsComeFirst(before, after, max, l, i);
    }
    assert Distinct(kept);
    DistinctSize(kept);
    SubsetSize(Elements(kept), Blocks(after));
    forall i, j | 0 <= i < j < |kept|
      ensures after[kept[i]].mtime > after[kept[j]].mtime
    {
      assert kept[i] == l[i] && kept[j] == l[j];
    }
    forall n
      ensures n in kept <==> n in Blocks(after)
    {
      assert n in kept <==> n in Elements(kept);
    }
  }

  lemma AfterSize(before: Dir, after: Dir, max: nat)
    requires Trimmed(before, after, max) && Settled(after, max)
    requires forall n :: n in before ==> before[n].mtime < MAX_TIME
    ensures |Blocks(after)| == if |Blocks(before)| > max then max else |Blocks(before)|
  {
    SubsetSize(Blocks(after), Blocks(before));
    WithinCapacity(after, max);
  }

  lemma SurvivorsComeFirst(before: Dir, after: Dir, max: nat, l: seq<string>, i: nat)
    requires Trimmed(before, after, max) && NewestFirst(before, l)
    requires i < |l| && i < |Blocks(after)|
    ensures l[i] in Blocks(after)
  {
    assert l[i] in l;
    if l[i] !in after {
      forall s | s in Blocks(after)
        ensures s in l[..i]
      {
        assert s in Blocks(before);
        assert s in l;
        var j :| 0 <= j < |l| && l[j] == s;
        assert before[l[i]].mtime <= before[l[j]].mtime;
        assert j < i;
        assert l[..i][j] == s;
      }
      var front := l[..i];
      assert Distinct(front);
      DistinctSize(front);
      SubsetSize(Blocks(after), Elements(front));
    }
  }

  /** Dating a block later than all others moves it to the front, whether it was there or is new. */
  lemma UseMovesToFront(files: Dir, l: seq<string>, name: string, file: File)
    requires NewestFirst(files, l) && IsBlock(name)
    requires forall n :: n in files ==> files[n].mtime < file.mtime
    ensures NewestFirst(files[name := file], MoveToFront(l, name))
  {
    var after, m := files[name := file], MoveToFront(l, name);
    MoveToFrontDistinct(l, name);
    var rest := Without(l, name);
    WithoutKeepsDates(files, l, name);
    forall n
      ensures n in m <==> n in Blocks(after)
    {
      assert n in m <==> n == name || n in rest;
      assert n in Blocks(after) <==> n == name || n in Blocks(files);
    }
    forall i, j | 0 <= i < j < |m|
      ensures after[m[i]].mtime > after[m[j]].mtime
    {
      assert m[j] == rest[j - 1] && rest[j - 1] in rest;
      if i > 0 {
        assert m[i] == rest[i - 1] && rest[i - 1] in rest;
      }
    }
  }

  lemma DatedTail(files: Dir, l: seq<string>)
    requires Dated(files, l) && l != []
    ensures Dated(files, l[1..])
  {
    forall i, j | 0 <= i < j < |l| - 1
      ensures files[l[1..][i]].mtime > files[l[1..][j]].mtime
    {
      assert l[1..][i] == l[i + 1] && l[1..][j] == l[j + 1];
    }
  }

  lemma DatedInFront(files: Dir, first: string, rest: seq<string>)
    requires first in files && Dated(files, rest)
    requires forall j :: 0 <= j < |rest| ==> files[first].mtime > files[rest[j]].mtime
    ensures Dated(files, [first] + rest)
  {
  }

  lemma {:induction false} WithoutKeepsDates(files: Dir, l: seq<string>, x: string)
    requires Dated(files, l)
    ensures Dated(files, Without(l, x))
  {
    if l != [] {
      DatedTail(files, l);
      WithoutKeepsDates(files, l[1..], x);
      var r := Without(l[1..], x);
      forall j | 0 <= j < |r|
        ensures files[l[0]].mtime > files[r[j]].mtime
      {
        assert r[j] in l[1..];
        var k :| 0 <= k < |l[1..]| && l[1..][k] == r[j];
        assert l[k + 1] == r[j];
      }
      if l[0] != x {
        DatedInFront(files, l[0], r);
        assert Without(l, x) == [l[0]] + r;
      } else {
        assert Without(l, x) == r;
      }
    }
  }

  // --- Read-through requests ---

  datatype Request = Request(uri: string, start: nat)

  function NameOf(r: Request): string { PathFor(r.uri, r.start) }

  // What a fetch of a block brings: the bytes of a 206, or nothing that may be cached.
  datatype Fetched = Cacheable(bytes: seq<byte>) | NotCacheable

  // The k-th request, if it misses, fetches `fetch(k)`.
  function Uses(trace: seq<Request>, fetch: nat -> Fetched): seq<Use> {
    seq(|trace|, k requires 0 <= k < |trace| => Use(NameOf(trace[k]), fetch(k).Cacheable?))
  }

  // Every block fetched has the content its name stands for.
  ghost predicate Brings(trace: seq<Request>, fetch: nat -> Fetched, content: string -> seq<byte>) {
    forall k :: 0 <= k < |trace| && fetch(k).Cacheable? ==> fetch(k).bytes == content(NameOf(trace[k]))
  }

  // What the requests were served, and what the files hold, is the content.
  ghost predicate IsServed(files: Dir, trace: seq<Request>, fetch: nat -> Fetched, content: string -> seq<byte>,
                           served: seq<seq<byte>>) {
    && (forall n :: n in files ==> files[n].bytes == content(n))
    && (forall k :: 0 <= k < |served| && k < |trace| && fetch(k).Cacheable? ==> served[k] == content(NameOf(trace[k])))
  }

  lemma ServeOne(before: Dir, after: Dir, trace: seq<Request>, fetch: nat -> Fetched, content: string -> seq<byte>,
                 served: seq<seq<byte>>, hit: bool, out: seq<byte>)
    requires Brings(trace, fetch, content) && IsServed(before, trace, fetch, content, served) && |served| < |trace|
    requires var name, got := NameOf(trace[|served|]), fetch(|served|);
      && (hit ==> name in before)
      && out == (if hit then before[name].bytes else if got.Cacheable? then got.bytes else [])
      && forall n :: n in after ==>
           if n == name && !hit then got.Cacheable? && after[n].bytes == got.bytes
           else n in before && after[n].bytes == before[n].bytes
    ensures IsServed(after, trace, fetch, content, served + [out])
  {
  }

  // One request: a load, and on a miss a fetch whose block is stored.
  method ReadThrough(cache: Cache, r: Request, got: Fetched) returns (hit: bool, out: seq<byte>)
    requires cache.Valid() && cache.clock + 2 < MAX_TIME && cache.maxBlocks > 0
    requires forall n :: n in cache.files ==> IsBlock(n)
    modifies cache
    ensures cache.Valid() && old(cache.clock) <= cache.clock <= old(cache.clock) + 2
    ensures cache.maxBlocks == old(cache.maxBlocks)
    ensures hit <==> NameOf(r) in old(cache.files)
    ensures cache.hits == old(cache.hits) + (if hit then 1 else 0)
    ensures cache.hits + cache.misses == old(cache.hits + cache.misses) + 1
    ensures forall n :: n in cache.files ==> IsBlock(n)
    ensures forall l :: NewestFirst(old(cache.files), l) ==>
      NewestFirst(cache.files, Used(l, Use(NameOf(r), got.Cacheable?), cache.maxBlocks))
    ensures out == if hit then old(cache.files)[NameOf(r)].bytes else if got.Cacheable? then got.bytes else []
    ensures forall n :: n in cache.files ==>
      if n == NameOf(r) && !hit then got.Cacheable? && cache.files[n].bytes == got.bytes
      else n in old(cache.files) && cache.files[n].bytes == old(cache.files)[n].bytes
  {
    var name := NameOf(r);
    BlockNames(r.uri, r.start, name);
    ghost var before := cache.files;
    hit, out := cache.TryLoad(r.uri, r.start, LoadOk);
    forall l | NewestFirst(before, l)
      ensures name in l <==> hit
    {
      HeldIsListed(before, l, name);
    }
    if hit {
      forall l | NewestFirst(before, l)
        ensures NewestFirst(cache.files, MoveToFront(l, name))
      {
        UseMovesToFront(before, l, name, File(out, cache.clock));
      }
    } else if got.Cacheable? {
      out := got.bytes;
      cache.Store(r.uri, r.start, got.bytes, StoreOk);
      ghost var stored := before[name := File(got.bytes, cache.clock)];
      assert before - {TempFor(name)} == before;
      forall l | NewestFirst(before, l)
        ensures NewestFirst(cache.files, Take(MoveToFront(l, name), cache.maxBlocks))
      {
        UseMovesToFront(before, l, name, File(got.bytes, cache.clock));
        EvictionTruncates(stored, cache.files, cache.maxBlocks, MoveToFront(l, name));
      }
    } else {
      out := [];
    }
  }

  /** After any sequence of read-through requests from an empty directory, whatever each fetch brings, the block
      files are exactly the LRU list's, newest first, every request was one hit or one miss, and the hits are
      the list's. When a block is always cacheable or never, these are the `maxBlocks` most recently used
      distinct cacheable ones. When the fetches bring `content`, so do the requests, hit or miss, and the files
      hold it. */
  method RunTrace(max: int, trace: seq<Request>, fetch: nat -> Fetched, ghost content: string -> seq<byte>)
    returns (cache: Cache, served: seq<seq<byte>>)
    requires 2 <= max <= 500 && 2 * |trace| + 2 < MAX_TIME
    ensures |served| == |trace|
    ensures Brings(trace, fetch, content) ==> IsServed(cache.files, trace, fetch, content, served)
    ensures cache.hits + cache.misses == |trace|
    ensures cache.hits == Hits(Uses(trace, fetch), max)
    ensures NewestFirst(cache.files, Lru(Uses(trace, fetch), max))
    ensures Consistent(Uses(trace, fetch)) ==> NewestFirst(cache.files, Take(Recent(Uses(trace, fetch)), max))
  {
    hide NewestFirst, Lru, Hits, Used, Consistent, Brings, IsServed;
    cache := new Cache();
    var ok := cache.Configure(max, map[], true);
    ghost var list: seq<string> := [];
    served := [];
    EmptyDirectory(cache.files, Uses(trace[..0], fetch), max);
    NothingServed(cache.files, trace, fetch, content);
    for i := 0 to |trace|
      invariant fresh(cache) && cache.Valid() && cache.maxBlocks == max && cache.clock <= 2 * i
      invariant forall n :: n in cache.files ==> IsBlock(n)
      invariant list == Lru(Uses(trace[..i], fetch), max) && NewestFirst(cache.files, list)
      invariant cache.hits + cache.misses == i
      invariant cache.hits == Hits(Uses(trace[..i], fetch), max)
      invariant |served| == i
      invariant Brings(trace, fetch, content) ==> IsServed(cache.files, trace, fetch, content, served)
    {
      var name := NameOf(trace[i]);
      var got := fetch(i);
      ghost var before, use := Uses(trace[..i], fetch), Use(name, got.Cacheable?);
      assert Uses(trace[..i + 1], fetch) == before + [use];
      HeldIsListed(cache.files, list, name);
      ghost var files := cache.files;
      var hit, out := ReadThrough(cache, trace[i], got);
      if Brings(trace, fetch, content) {
        ServeOne(files, cache.files, trace, fetch, content, served, hit, out);
      }
      served := served + [out];
      LruStep(before, use, max);
      list := Lru(before + [use], max);
    }
    assert trace[..|trace|] == trace;
    if Consistent(Uses(trace, fetch)) {
      LruIsMostRecent(Uses(trace, fetch), max);
    }
  }

  lemma NothingServed(files: Dir, trace: seq<Request>, fetch: nat -> Fetched, content: string -> seq<byte>)
    requires files == map[]
    ensures IsServed(files, trace, fetch, content, [])
  {
  }

  lemma HeldIsListed(files: Dir, l: seq<string>, name: string)
    requires NewestFirst(files, l)
    ensures name in l <==> name in files && IsBlock(name)
  {
    assert name in Blocks(files) <==> name in files && IsBlock(name);
  }

  lemma EmptyDirectory(files: Dir, uses: seq<Use>, cap: nat)
    requires files == map[] && uses == []
    ensures NewestFirst(files, []) && Lru(uses, cap) == [] && Hits(uses, cap) == 0
  {
    assert Blocks(files) == {};
  }

  // What one more request does to the LRU list and to its hits.
  lemma LruStep(uses: seq<Use>, use: Use, cap: nat)
    ensures Lru(uses + [use], cap) == Used(Lru(uses, cap), use, cap)
    ensures Hits(uses + [use], cap) == Hits(uses, cap) + if use.name in Lru(uses, cap) then 1 else 0
  {
    hide Used;
    assert (uses + [use])[..|uses|] == uses;
  }
}
