/** The disk block cache: a directory whose modification times implement an LRU list. */
module DiskCache {
  import opened Bytes

  datatype File = File(bytes: seq<byte>, mtime: int)

  // The cache directory, by file name.
  type Dir = map<string, File>

  // file_time_type::max()
  const MAX_TIME: int := 0x7fff_ffff_ffff_ffff

  // --- File names ---

  // The djb2 hash, in 64 bits.
  function Djb2(uri: string): nat {
    if uri == "" then 5381 else Wrap64(Djb2(uri[..|uri| - 1]) * 33 + uri[|uri| - 1] as nat)
  }

  // The k low-order hexadecimal digits of v.
  function HexDigits(v: nat, k: nat): (r: string)
    ensures |r| == k
  {
    if k == 0 then "" else HexDigits(v / 16, k - 1) + [HexDigit(v % 16)]
  }

  // hex16: the digits are written from the last one back.
  method Hex16(v0: nat) returns (s: string)
    ensures s == HexDigits(v0, 16)
  {
    hide HexDigit;
    var digits, v := new char[16](_ => '0'), v0;
    var i := 16;
    ghost var tail := "";
    while i > 0
      invariant 0 <= i <= 16
      invariant digits[i..] == tail && HexDigits(v, i) + tail == HexDigits(v0, 16)
    {
      i := i - 1;
      digits[i] := HexDigit(v % 16);
      assert digits[i..] == [digits[i]] + tail;
      tail := [digits[i]] + tail;
      v := v / 16;
    }
    s := digits[..];
  }

  function PathFor(uri: string, start: nat): string {
    HexDigits(Djb2(uri), 16) + "_" + HexDigits(start, 16) + ".blk"
  }

  // path_for: the shift and the sums are those of a std::uint64_t.
  method PathOf(uri: string, start: nat) returns (path: string)
    ensures path == PathFor(uri, start)
  {
    hide HexDigits;
    var h := 5381;
    for i := 0 to |uri|
      invariant h == Djb2(uri[..i])
    {
      assert uri[..i + 1][..i] == uri[..i];
      WrapTwice(h, uri[i] as nat);
      h := Wrap64(Wrap64(Wrap64(h * 32) + h) + uri[i] as nat);
    }
    assert uri[..|uri|] == uri;
    var hash := Hex16(h);
    var offset := Hex16(start);
    path := hash + "_" + offset + ".blk";
  }

  lemma WrapTwice(h: nat, c: nat)
    ensures Wrap64(Wrap64(Wrap64(h * 32) + h) + c) == Wrap64(h * 33 + c)
  {
    hide Wrap64;
    WrapAdd(h * 32, h);
    WrapAdd(h * 32 + h, c);
    assert h * 32 + h == h * 33;
  }

  function HexValue(c: char): nat {
    if '0' <= c <= '9' then c as nat - '0' as nat else if 'a' <= c <= 'f' then c as nat - 'a' as nat + 10 else 0
  }

  // The number that lower-case hexadecimal digits denote.
  function HexNumber(s: string): nat {
    if s == "" then 0 else 16 * HexNumber(s[..|s| - 1]) + HexValue(s[|s| - 1])
  }

  lemma DigitReads(v: nat)
    requires v < 16
    ensures HexValue(HexDigit(v)) == v
  {
  }

  /** A file name says the hash of the URI and the start of the block, each in sixteen digits. */
  lemma NameReads(uri: string, start: nat)
    requires start < 0x1_0000_0000_0000_0000
    ensures var path := PathFor(uri, start);
      |path| == 37 && HexNumber(path[..16]) == Djb2(uri) && path[16] == '_' && HexNumber(path[17..33]) == start &&
      path[33..] == ".blk"
  {
    hide HexDigits, Djb2;
    var path := PathFor(uri, start);
    Djb2Fits(uri);
    assert Pow16(4) == 0x1_0000 && Pow16(8) == 0x1_0000 * Pow16(4) && Pow16(12) == 0x1_0000 * Pow16(8);
    assert Pow16(16) == 0x1_0000 * Pow16(12);
    HexDigitsReadBack(Djb2(uri), 16);
    HexDigitsReadBack(start, 16);
    assert path[..16] == HexDigits(Djb2(uri), 16) && path[17..33] == HexDigits(start, 16);
  }

  lemma {:induction false} HexDigitsReadBack(v: nat, k: nat)
    requires v < Pow16(k)
    ensures HexNumber(HexDigits(v, k)) == v
  {
    hide HexDigit, HexValue;
    if k > 0 {
      var s := HexDigits(v, k);
      HexDigitsReadBack(v / 16, k - 1);
      DigitReads(v % 16);
      assert s[..k - 1] == HexDigits(v / 16, k - 1) && s[k - 1] == HexDigit(v % 16);
    }
  }

  /** The hash as its author gives it: 33 times the hash so far plus the character, from 5381 on. */
  lemma KnownHash()
    ensures Djb2("s3") == (5381 * 33 + 115) * 33 + 51
  {
    assert "s3"[..1] == "s" && "s"[..0] == "";
  }

  function TempFor(name: string): string { name + ".tmp" }

  // path().extension() == ".blk"
  predicate IsBlock(name: string) {
    |name| > 4 && name[|name| - 4..] == ".blk"
  }

  /** A name with the extension is a block file exactly when something stands in front of it. */
  lemma BlockExtension(stem: string, extension: string)
    ensures IsBlock(stem + ".blk") <==> stem != ""
    ensures |extension| == 4 && extension != ".blk" ==> !IsBlock(stem + extension)
  {
    assert (stem + ".blk")[|stem|..] == ".blk" && (stem + extension)[|stem|..] == extension;
  }

  function Blocks(files: Dir): set<string> {
    set n | n in files && IsBlock(n)
  }

  function Pow16(k: nat): nat { if k == 0 then 1 else 16 * Pow16(k - 1) }

  lemma {:induction false} HexDigitsInjective(v: nat, w: nat, k: nat)
    requires v < Pow16(k) && w < Pow16(k) && HexDigits(v, k) == HexDigits(w, k)
    ensures v == w
  {
    hide HexDigit;
    if k > 0 {
      var a, b := HexDigits(v, k), HexDigits(w, k);
      assert a[..k - 1] == HexDigits(v / 16, k - 1) && b[..k - 1] == HexDigits(w / 16, k - 1);
      assert a[k - 1] == HexDigit(v % 16) && b[k - 1] == HexDigit(w % 16);
      HexDigitInjective(v % 16, w % 16);
      HexDigitsInjective(v / 16, w / 16, k - 1);
    }
  }

  lemma {:induction false} Djb2Fits(uri: string)
    ensures Djb2(uri) < 0x1_0000_0000_0000_0000
  {
  }

  lemma Pow16Of16()
    ensures Pow16(16) == 0x1_0000_0000_0000_0000
  {
    assert Pow16(4) == 0x1_0000;
    assert Pow16(8) == 0x1_0000 * Pow16(4);
    assert Pow16(12) == 0x1_0000 * Pow16(8);
    assert Pow16(16) == 0x1_0000 * Pow16(12);
  }

  /** A file name tells the hash of its URI and the start of its block, and nothing more. */
  lemma PathInjective(u1: string, s1: nat, u2: string, s2: nat)
    requires s1 < 0x1_0000_0000_0000_0000 && s2 < 0x1_0000_0000_0000_0000
    ensures PathFor(u1, s1) == PathFor(u2, s2) <==> Djb2(u1) == Djb2(u2) && s1 == s2
  {
    hide HexDigits, Djb2;
    if PathFor(u1, s1) == PathFor(u2, s2) {
      var p, q := PathFor(u1, s1), PathFor(u2, s2);
      assert p[..16] == HexDigits(Djb2(u1), 16) && q[..16] == HexDigits(Djb2(u2), 16);
      assert p[17..33] == HexDigits(s1, 16) && q[17..33] == HexDigits(s2, 16);
      Djb2Fits(u1);
      Djb2Fits(u2);
      Pow16Of16();
      HexDigitsInjective(Djb2(u1), Djb2(u2), 16);
      HexDigitsInjective(s1, s2, 16);
    }
  }

  /** Block files and temporary files are never confused. */
  lemma BlockNames(uri: string, start: nat, name: string)
    ensures IsBlock(PathFor(uri, start)) && !IsBlock(TempFor(name)) && TempFor(name) != PathFor(uri, start)
  {
    hide HexDigits;
    var p, t := PathFor(uri, start), TempFor(name);
    assert p[|p| - 4..] == ".blk" && t[|t| - 4..] == ".tmp";
    assert ".blk"[1] != ".tmp"[1];
  }

  /** Two URIs of different objects can share their block names: the hash of one byte pair, 'az', is that
      of another, 'bY', behind any common text. */
  lemma UrisCollide(common: string, start: nat)
    ensures common + "az" != common + "bY"
    ensures PathFor(common + "az", start) == PathFor(common + "bY", start)
  {
    hide HexDigits, Djb2;
    Djb2Append(common, 'a');
    Djb2Append(common + "a", 'z');
    Djb2Append(common, 'b');
    Djb2Append(common + "b", 'Y');
    assert common + "az" == common + "a" + "z" && common + "bY" == common + "b" + "Y";
    assert (common + "az")[|common|] != (common + "bY")[|common|];
    CollidingPair(Djb2(common));
  }

  lemma Djb2Append(s: string, c: char)
    ensures Djb2(s + [c]) == Wrap64(Djb2(s) * 33 + c as nat)
  {
    assert (s + [c])[..|s|] == s;
  }

  lemma CollidingPair(h: nat)
    ensures Wrap64(Wrap64(h * 33 + 97) * 33 + 122) == Wrap64(Wrap64(h * 33 + 98) * 33 + 89)
  {
    WrapTimes33(h * 33 + 97, 122);
    WrapTimes33(h * 33 + 98, 89);
  }

  lemma WrapTimes33(x: nat, c: nat)
    ensures Wrap64(Wrap64(x) * 33 + c) == Wrap64(x * 33 + c)
  {
    var q := x / 0x1_0000_0000_0000_0000;
    var z := Wrap64(x) * 33 + c;
    var p := z / 0x1_0000_0000_0000_0000;
    WrapUnique(x * 33 + c, 33 * q + p, Wrap64(z));
  }

  // --- Eviction ---

  // `after` is `before` with oldest blocks removed, no more of them than needed to come down to `max`.
  ghost predicate Trimmed(before: Dir, after: Dir, max: nat) {
    && after.Keys <= before.Keys
    && (forall n :: n in after ==> after[n] == before[n])
    && (forall n :: n in before && !IsBlock(n) ==> n in after)
    && (forall v, s :: v in before && v !in after && s in Blocks(after) ==> before[v].mtime <= before[s].mtime)
    && (after != before ==> |Blocks(after)| >= max)
  }

  // Eviction is over: within capacity, unless only files dated at the end of time are left.
  ghost predicate Settled(files: Dir, max: nat) {
    |Blocks(files)| <= max || forall n :: n in Blocks(files) ==> files[n].mtime >= MAX_TIME
  }

  // --- The cache ---

  // What the file system does in one try_load or store.
  datatype LoadIo = LoadOk | StatFails | OpenFails | ReadFails | TouchFails
  // The stream is checked before it is closed: bytes it still buffers then can be lost unnoticed.
  datatype StoreIo = StoreOk | CreateFails | WriteFails | RenameFails | CloseLoses(kept: nat)

  // What is in the file when the stream has been closed.
  function Landed(data: seq<byte>, io: StoreIo): seq<byte> {
    if io.CloseLoses? && io.kept < |data| then data[..io.kept] else data
  }

  // What a store makes of the directory: the block under its name and the oldest others evicted, or nothing
  // but the temporary file gone.
  ghost predicate Stored(before: Dir, path: string, data: seq<byte>, io: StoreIo, clock: int, max: nat, after: Dir) {
    if io.StoreOk? || io.CloseLoses? then
      && Trimmed((before - {TempFor(path)})[path := File(Landed(data, io), clock)], after, max)
      && Settled(after, max)
    else if io.CreateFails? then after == before
    else after == before - {TempFor(path)}
  }

  class Cache {
    var enabled: bool
    var maxBlocks: nat
    var files: Dir
    var hits: nat
    var misses: nat
    var clock: int  // the file clock: each reading is later than the one before

    // No file is dated later than the clock.
    ghost predicate Valid()
      reads this
    {
      forall n :: n in files ==> files[n].mtime <= clock
    }

    constructor ()
      ensures !enabled && files == map[] && hits == misses == 0 && clock == 0 && Valid()
    {
      enabled, maxBlocks, files, hits, misses, clock := false, 0, map[], 0, 0, 0;
    }

    // `contents` is what the directory already holds.
    method Configure(max: int, contents: Dir, created: bool) returns (ok: bool)
      requires forall n :: n in contents ==> contents[n].mtime <= clock
      requires Valid()
      modifies this
      ensures Valid() && hits == old(hits) && misses == old(misses) && clock == old(clock)
      ensures ok <==> max <= 0 || created
      ensures enabled <==> max > 0 && created
      ensures enabled ==> 2 <= maxBlocks <= 500 && files == contents
      ensures enabled ==> maxBlocks == if max < 2 then 2 else if max > 500 then 500 else max
      ensures !enabled ==> files == old(files) && maxBlocks == old(maxBlocks)
    {
      if max <= 0 {
        enabled := false;
        return true;
      }
      if !created {
        enabled := false;
        return false;
      }
      files := contents;
      maxBlocks := if max < 2 then 2 else if max > 500 then 500 else max;
      enabled := true;
      return true;
    }

    method Now() returns (t: int)
      modifies this`clock
      ensures t == clock == old(clock) + 1
    {
      clock := clock + 1;
      t := clock;
    }

    /** A hit returns the file's bytes and dates it now; anything else is a miss that changes nothing. */
    method TryLoad(uri: string, start: nat, io: LoadIo) returns (ok: bool, out: seq<byte>)
      requires Valid()
      modifies this`files, this`hits, this`misses, this`clock
      ensures Valid() && old(clock) <= clock <= old(clock) + 1
      ensures ok <==> PathFor(uri, start) in old(files) && io != StatFails && io != OpenFails &&
                      (io == ReadFails ==> old(files)[PathFor(uri, start)].bytes == [])
      ensures ok ==> out == old(files)[PathFor(uri, start)].bytes && hits == old(hits) + 1 && misses == old(misses)
      ensures !ok ==> misses == old(misses) + 1 && hits == old(hits) && files == old(files)
      ensures ok && io == TouchFails ==> files == old(files)
      ensures ok && io != TouchFails ==> clock == old(clock) + 1
      ensures ok && io != TouchFails ==> files == old(files)[PathFor(uri, start) := File(out, clock)]
    {
      var path := PathOf(uri, start);
      ok, out := false, [];
      if path !in files || io == StatFails {
        misses := misses + 1;
        return;
      }
      if io == OpenFails {
        misses := misses + 1;
        return;
      }
      var size := |files[path].bytes|;
      if size > 0 && io == ReadFails {
        misses := misses + 1;
        return;
      }
      out := files[path].bytes;
      var now := Now();
      if io != TouchFails {
        files := files[path := File(out, now)];
      }
      hits := hits + 1;
      ok := true;
    }

    /** Writes the block under a temporary name, renames it into place, and evicts. */
    method Store(uri: string, start: nat, data: seq<byte>, io: StoreIo)
      requires Valid()
      modifies this`files, this`clock
      ensures Valid() && old(clock) <= clock <= old(clock) + 1
      ensures Stored(old(files), PathFor(uri, start), data, io, clock, maxBlocks, files)
      ensures io.StoreOk? || io.CloseLoses? ==> clock == old(clock) + 1
    {
      var path := PathOf(uri, start);
      var tmp := TempFor(path);
      BlockNames(uri, start, path);
      if io.CreateFails? {
        return;
      }
      var now := Now();
      files := files[tmp := File(data, now)];
      if io.WriteFails? {
        files := files - {tmp};
        return;
      }
      files := files[tmp := File(Landed(data, io), now)];
      if io.RenameFails? {
        files := files - {tmp};
        return;
      }
      files := files[path := files[tmp]] - {tmp};
      assert files == (old(files) - {tmp})[path := File(Landed(data, io), now)];
      EvictIfNeeded();
    }

    /** Deletes oldest blocks, one scan each, until the directory is within capacity. */
    method EvictIfNeeded()
      modifies this`files
      ensures Trimmed(old(files), files, maxBlocks) && Settled(files, maxBlocks)
    {
      while true
        invariant Trimmed(old(files), files, maxBlocks)
        decreases |files|
      {
        var count, oldest := Scan();
        if count <= maxBlocks || oldest == "" {
          return;
        }
        ghost var was := files;
        files := files - {oldest};
        OldestLeaves(old(files), was, oldest, maxBlocks);
      }
    }

    // One pass over the directory, in whatever order it comes: the number of blocks, and an oldest one.
    method Scan() returns (count: nat, oldest: string)
      ensures count == |Blocks(files)|
      ensures oldest != "" ==> oldest in Blocks(files)
      ensures oldest != "" ==> forall n :: n in Blocks(files) ==> files[oldest].mtime <= files[n].mtime
      ensures oldest == "" ==> forall n :: n in Blocks(files) ==> files[n].mtime >= MAX_TIME
    {
      count, oldest := 0, "";
      var oldestTime := MAX_TIME;
      var todo := files.Keys;
      ghost var seen: set<string> := {};
      while todo != {}
        invariant todo <= files.Keys && seen == Blocks(files) - todo
        invariant count == |seen|
        invariant oldest == "" ==> oldestTime == MAX_TIME
        invariant oldest != "" ==> oldest in seen && files[oldest].mtime == oldestTime
        invariant forall n :: n in seen ==> oldestTime <= files[n].mtime
        decreases todo
      {
        var entry :| entry in todo;
        todo := todo - {entry};
        if !IsBlock(entry) {
          assert Blocks(files) - todo == seen;
          continue;
        }
        assert entry !in seen && Blocks(files) - todo == seen + {entry};
        seen := seen + {entry};
        count := count + 1;
        var t := files[entry].mtime;
        if t < oldestTime {
          oldestTime, oldest := t, entry;
        }
      }
      assert seen == Blocks(files);
    }
  }

  // Removing an oldest block from a directory over capacity trims it further.
  lemma OldestLeaves(before: Dir, files: Dir, oldest: string, max: nat)
    requires Trimmed(before, files, max) && |Blocks(files)| > max
    requires oldest in Blocks(files)
    requires forall n :: n in Blocks(files) ==> files[oldest].mtime <= files[n].mtime
    ensures Trimmed(before, files - {oldest}, max) && |files - {oldest}| < |files|
  {
    var after := files - {oldest};
    assert Blocks(after) == Blocks(files) - {oldest};
    assert |Blocks(after)| == |Blocks(files)| - 1;
    assert after.Keys == files.Keys - {oldest};
    forall v, s | v in before && v !in after && s in Blocks(after)
      ensures before[v].mtime <= before[s].mtime
    {
      if v == oldest {
        assert files[oldest].mtime <= files[s].mtime;
      } else {
        assert v !in files;
      }
    }
  }
}
