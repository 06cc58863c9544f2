/** Every block file holds the bytes of its content, at every moment: under any interleaving of the threads'
    cache sections and with the process dying between any two steps of a store. And what happens outside
    the conditions this needs.
 */
module CacheTruth {
  import opened Bytes
  import CacheLru
  import opened DiskCache

  type Objects = string -> seq<byte>

  // The part of an object that a range request for `readAhead` bytes from `start` covers.
  function BlockOf(content: seq<byte>, start: nat, readAhead: nat): seq<byte> {
    if start >= |content| then []
    else if start + readAhead <= |content| then content[start..start + readAhead]
    else content[start..]
  }

  // Block starts fit 64 bits and are multiples of the read-ahead.
  predicate IsStart(start: nat, readAhead: nat)
    requires readAhead > 0
  {
    start < 0x1_0000_0000_0000_0000 && start % readAhead == 0
  }

  ghost predicate HoldsBlock(files: Dir, objects: Objects, readAhead: nat, uri: string, start: nat) {
    PathFor(uri, start) in files ==>
      start < |objects(uri)| && files[PathFor(uri, start)].bytes == BlockOf(objects(uri), start, readAhead)
  }

  // Every block file of a URI in use holds the bytes its name promises.
  ghost predicate Truthful(files: Dir, objects: Objects, uris: set<string>, readAhead: nat)
    requires readAhead > 0
  {
    forall uri, start :: uri in uris && IsStart(start, readAhead) ==> HoldsBlock(files, objects, readAhead, uri, start)
  }

  // No two URIs in use share a hash.
  ghost predicate NoCollision(uris: set<string>) {
    forall u, v :: u in uris && v in uris && Djb2(u) == Djb2(v) ==> u == v
  }

  // Removing files, and dating them, keeps the cache truthful.
  lemma TruthOfPart(before: Dir, after: Dir, objects: Objects, uris: set<string>, readAhead: nat)
    requires readAhead > 0 && Truthful(before, objects, uris, readAhead)
    requires forall n :: n in after && IsBlock(n) ==> n in before && after[n].bytes == before[n].bytes
    ensures Truthful(after, objects, uris, readAhead)
  {
    hide PathFor, IsBlock;
    forall uri, start | uri in uris && IsStart(start, readAhead)
      ensures HoldsBlock(after, objects, readAhead, uri, start)
    {
      BlockNames(uri, start, "");
      assert HoldsBlock(before, objects, readAhead, uri, start);
    }
  }

  /** Putting a true block in place keeps the cache truthful, because no other block has its name. */
  lemma TruthOfStore(before: Dir, after: Dir, objects: Objects, uris: set<string>, readAhead: nat,
                     uri: string, start: nat)
    requires readAhead > 0 && Truthful(before, objects, uris, readAhead) && NoCollision(uris)
    requires uri in uris && IsStart(start, readAhead) && start < |objects(uri)|
    requires PathFor(uri, start) in after ==>
               after[PathFor(uri, start)].bytes == BlockOf(objects(uri), start, readAhead)
    requires forall n :: n in after && IsBlock(n) && n != PathFor(uri, start) ==>
               n in before && after[n].bytes == before[n].bytes
    ensures Truthful(after, objects, uris, readAhead)
  {
    hide PathFor, IsBlock;
    forall u, s | u in uris && IsStart(s, readAhead)
      ensures HoldsBlock(after, objects, readAhead, u, s)
    {
      BlockNames(u, s, "");
      if PathFor(u, s) == PathFor(uri, start) {
        PathInjective(u, s, uri, start);
      } else {
        assert HoldsBlock(before, objects, readAhead, u, s);
      }
    }
  }

  // The block just stored is dated later than all others, so its own eviction pass keeps it.
  lemma StoredBlockSurvives(before: Dir, after: Dir, path: string, data: seq<byte>, io: StoreIo, clock: int, max: nat)
    requires IsBlock(path) && max > 0 && forall n :: n in before ==> before[n].mtime < clock
    requires io.StoreOk? || io.CloseLoses?
    requires Stored(before, path, data, io, clock, max, after)
    ensures path in after && after[path].bytes == Landed(data, io)
  {
    hide IsBlock, TempFor;
    CacheLru.NewestSurvives((before - {TempFor(path)})[path := File(Landed(data, io), clock)], after, max, path);
  }

  // A store that loses nothing keeps every block true, whatever else the file system does.
  lemma StoredBlockIsTrue(before: Dir, after: Dir, io: StoreIo, clock: int, max: nat,
                          objects: Objects, uris: set<string>, readAhead: nat, uri: string, start: nat)
    requires readAhead > 0 && Truthful(before, objects, uris, readAhead) && NoCollision(uris)
    requires uri in uris && IsStart(start, readAhead) && start < |objects(uri)|
    requires Landed(BlockOf(objects(uri), start, readAhead), io) == BlockOf(objects(uri), start, readAhead)
    requires Stored(before, PathFor(uri, start), BlockOf(objects(uri), start, readAhead), io, clock, max, after)
    ensures Truthful(after, objects, uris, readAhead)
  {
    hide PathFor, IsBlock, TempFor, BlockOf, Truthful, Landed;
    BlockNames(uri, start, PathFor(uri, start));
    if io.StoreOk? || io.CloseLoses? {
      TruthOfStore(before, after, objects, uris, readAhead, uri, start);
    } else {
      TruthOfPart(before, after, objects, uris, readAhead);
    }
  }

  /** Storing a block of the object, whatever the file system does, keeps every block true exactly when closing
      the file did not lose some of it: the stream is checked for errors before it is closed, so bytes that
      closing fails to write are missed. */
  lemma ClosingDecides(before: Dir, after: Dir, io: StoreIo, clock: int, max: nat,
                       objects: Objects, uris: set<string>, readAhead: nat, uri: string, start: nat)
    requires readAhead > 0 && Truthful(before, objects, uris, readAhead) && NoCollision(uris)
    requires uri in uris && IsStart(start, readAhead) && start < |objects(uri)|
    requires max > 0 && forall n :: n in before ==> before[n].mtime < clock || !(io.StoreOk? || io.CloseLoses?)
    requires Stored(before, PathFor(uri, start), BlockOf(objects(uri), start, readAhead), io, clock, max, after)
    ensures Truthful(after, objects, uris, readAhead) <==>
            !(io.CloseLoses? && io.kept < |BlockOf(objects(uri), start, readAhead)|)
  {
    hide PathFor, IsBlock, TempFor, BlockOf, Truthful;
    var path, data := PathFor(uri, start), BlockOf(objects(uri), start, readAhead);
    BlockNames(uri, start, path);
    if Landed(data, io) == data {
      StoredBlockIsTrue(before, after, io, clock, max, objects, uris, readAhead, uri, start);
    } else {
      StoredBlockSurvives(before, after, path, data, io, clock, max);
      assert |Landed(data, io)| < |data|;
      UntrueBlock(after, objects, uris, readAhead, uri, start);
    }
  }

  lemma UntrueBlock(files: Dir, objects: Objects, uris: set<string>, readAhead: nat, uri: string, start: nat)
    requires readAhead > 0 && uri in uris && IsStart(start, readAhead)
    requires !HoldsBlock(files, objects, readAhead, uri, start)
    ensures !Truthful(files, objects, uris, readAhead)
  {
  }

  // --- Outside the conditions ---

  /** Two URIs with colliding names see each other's blocks: what is stored for one is what the other loads,
      and that is right exactly when the two objects agree on the block. */
  lemma CollisionSharesBlocks(before: Dir, date: int, objects: Objects, readAhead: nat,
                              u: string, v: string, start: nat)
    requires readAhead > 0 && Djb2(u) == Djb2(v) && start < |objects(u)| && start < |objects(v)|
    ensures var after := before[PathFor(u, start) := File(BlockOf(objects(u), start, readAhead), date)];
      HoldsBlock(after, objects, readAhead, v, start) <==>
      BlockOf(objects(u), start, readAhead) == BlockOf(objects(v), start, readAhead)
  {
    hide HexDigits;
    assert PathFor(u, start) == PathFor(v, start);
  }

  /** File names do not tell the read-ahead. A block stored with one and loaded with another is the block
      meant exactly when the two are equal or the object ends within both. */
  lemma ReadAheadMatters(content: seq<byte>, start: nat, stored: nat, loaded: nat)
    requires start < |content| && stored > 0 && loaded > 0
    ensures BlockOf(content, start, stored) == BlockOf(content, start, loaded) <==>
            stored == loaded || (|content| <= start + stored && |content| <= start + loaded)
  {
    if BlockOf(content, start, stored) == BlockOf(content, start, loaded) {
      assert |BlockOf(content, start, stored)| == |BlockOf(content, start, loaded)|;
    }
  }

  /** The end-of-object flag, set when a loaded block is shorter than the stream's own read-ahead, is right
      for a block stored with another read-ahead under exactly this condition. */
  lemma EofFlagAcrossReadAheads(content: seq<byte>, start: nat, stored: nat, loaded: nat)
    requires start < |content| && stored > 0 && loaded > 0
    ensures var block := BlockOf(content, start, stored);
      (|block| < loaded ==> start + |block| == |content|) <==> (loaded <= stored || |content| <= start + stored)
  {
  }

  // --- Stores, step by step ---

  // What the mutex protects: nothing going on, a temporary file being written, or eviction.
  datatype Phase =
    | Idle
    | Writing(uri: string, start: nat, written: nat)
    | Evicting

  datatype State = State(files: Dir, phase: Phase, clock: int)

  datatype Env = Env(objects: Objects, uris: set<string>, readAhead: nat)

  // Steps of any thread. The mutex is free exactly when the phase is Idle.
  datatype Step =
    | Load(uri: string, start: nat)        // a whole try_load section
    | Create(uri: string, start: nat)      // lock, create or truncate the temporary file
    | Write(count: nat)                    // some more of its bytes reach the file
    | Fail                                 // a write or the rename fails: the temporary file is removed
    | Rename                               // closed, the temporary file becomes the block
    | Evict(victim: string)
    | Unlock
    | Crash                                // the process dies; the directory stays as it is

  ghost predicate ValidEnv(e: Env) {
    e.readAhead > 0 && NoCollision(e.uris)
  }

  function Data(e: Env, p: Phase): seq<byte>
    requires p.Writing?
  {
    BlockOf(e.objects(p.uri), p.start, e.readAhead)
  }

  // A store is given a block of the object it names: a server's 206 holds exactly that.
  ghost predicate Enabled(e: Env, s: State, step: Step)
    requires e.readAhead > 0
  {
    match step
    case Load(uri, start) => s.phase.Idle? && uri in e.uris && IsStart(start, e.readAhead)
    case Create(uri, start) =>
      s.phase.Idle? && uri in e.uris && IsStart(start, e.readAhead) && start < |e.objects(uri)|
    case Write(count) => s.phase.Writing? && s.phase.written + count <= |Data(e, s.phase)|
    case Fail => s.phase.Writing?
    case Rename => s.phase.Writing? && s.phase.written <= |Data(e, s.phase)|
    case Evict(victim) => s.phase.Evicting? && victim in Blocks(s.files)
    case Unlock => s.phase.Evicting?
    case Crash => true
  }

  function TempName(p: Phase): string
    requires p.Writing?
  {
    TempFor(PathFor(p.uri, p.start))
  }

  ghost function Apply(e: Env, s: State, step: Step): State
    requires e.readAhead > 0 && Enabled(e, s, step)
  {
    var now := s.clock + 1;
    match step
    case Load(uri, start) =>
      var path := PathFor(uri, start);
      if path in s.files then State(s.files[path := File(s.files[path].bytes, now)], Idle, now) else s
    case Create(uri, start) =>
      var p := Writing(uri, start, 0);
      State(s.files[TempName(p) := File([], now)], p, now)
    case Write(count) =>
      var p := s.phase.(written := s.phase.written + count);
      State(s.files[TempName(p) := File(Data(e, p)[..p.written], now)], p, now)
    case Fail => State(s.files - {TempName(s.phase)}, Idle, now)
    case Rename =>
      var path := PathFor(s.phase.uri, s.phase.start);
      State((s.files - {TempName(s.phase)})[path := File(Data(e, s.phase)[..s.phase.written], s.clock)], Evicting, now)
    case Evict(victim) => s.(files := s.files - {victim})
    case Unlock => s.(phase := Idle)
    case Crash => s.(phase := Idle)
  }

  // The stream is checked for errors before it is closed, so bytes that closing fails to write are missed.
  // A rename is clean when there are none.
  ghost predicate Clean(e: Env, s: State, step: Step)
    requires e.readAhead > 0 && Enabled(e, s, step)
  {
    step.Rename? ==> s.phase.written == |Data(e, s.phase)|
  }

  ghost predicate Inv(e: Env, s: State)
    requires e.readAhead > 0
  {
    && Truthful(s.files, e.objects, e.uris, e.readAhead)
    && (s.phase.Writing? ==>
      var p := s.phase;
      && p.uri in e.uris && IsStart(p.start, e.readAhead) && p.start < |e.objects(p.uri)|
      && p.written <= |Data(e, p)|
      // What Rename will put in place is what the temporary file holds.
      && TempName(p) in s.files && s.files[TempName(p)].bytes == Data(e, p)[..p.written])
  }

  lemma StepKeepsInv(e: Env, s: State, step: Step)
    requires ValidEnv(e) && Inv(e, s) && Enabled(e, s, step) && Clean(e, s, step)
    ensures Inv(e, Apply(e, s, step))
  {
    hide PathFor, TempFor, IsBlock, BlockOf, Truthful;
    var t := Apply(e, s, step);
    match step
    case Load(uri, start) =>
      TruthOfPart(s.files, t.files, e.objects, e.uris, e.readAhead);
    case Create(uri, start) =>
      BlockNames(uri, start, PathFor(uri, start));
      TruthOfPart(s.files, t.files, e.objects, e.uris, e.readAhead);
    case Write(count) =>
      BlockNames(s.phase.uri, s.phase.start, PathFor(s.phase.uri, s.phase.start));
      TruthOfPart(s.files, t.files, e.objects, e.uris, e.readAhead);
    case Fail =>
      TruthOfPart(s.files, t.files, e.objects, e.uris, e.readAhead);
    case Rename =>
      BlockNames(s.phase.uri, s.phase.start, PathFor(s.phase.uri, s.phase.start));
      assert Data(e, s.phase)[..s.phase.written] == Data(e, s.phase);
      TruthOfStore(s.files, t.files, e.objects, e.uris, e.readAhead, s.phase.uri, s.phase.start);
    case Evict(_) =>
      TruthOfPart(s.files, t.files, e.objects, e.uris, e.readAhead);
    case Unlock =>
    case Crash =>
  }

  /** A block put in place is true exactly when closing its file lost nothing. */
  lemma TornBlock(e: Env, s: State)
    requires ValidEnv(e) && Inv(e, s) && Enabled(e, s, Rename)
    ensures Inv(e, Apply(e, s, Rename)) <==> s.phase.written == |Data(e, s.phase)|
  {
    if s.phase.written == |Data(e, s.phase)| {
      StepKeepsInv(e, s, Rename);
    } else {
      hide PathFor, TempFor, BlockOf;
      var t := Apply(e, s, Rename);
      assert t.files[PathFor(s.phase.uri, s.phase.start)].bytes != Data(e, s.phase);
      assert !HoldsBlock(t.files, e.objects, e.readAhead, s.phase.uri, s.phase.start);
    }
  }

  // A run: every step is enabled in the state before it and leads to the state after it.
  ghost predicate IsRun(e: Env, states: seq<State>, steps: seq<Step>)
    requires e.readAhead > 0
  {
    && |states| == |steps| + 1
    && forall i :: 0 <= i < |steps| ==>
         && Enabled(e, states[i], steps[i]) && Clean(e, states[i], steps[i])
         && states[i + 1] == Apply(e, states[i], steps[i])
  }

  lemma {:induction false} RunKeepsInv(e: Env, states: seq<State>, steps: seq<Step>, k: nat)
    requires ValidEnv(e) && IsRun(e, states, steps) && k < |states|
    requires Inv(e, states[0])
    ensures Inv(e, states[k])
  {
    hide Inv, Apply, Enabled, Clean, NoCollision;
    if k > 0 {
      RunKeepsInv(e, states, steps, k - 1);
      StepKeepsInv(e, states[k - 1], steps[k - 1]);
    }
  }

  /** In every reachable state, crashes included, a load that finds a file gets exactly the bytes of the
      object from the block's start; the file it finds is never a temporary one; and the file that a
      rename puts in place is complete. */
  lemma LoadsAreTrue(e: Env, states: seq<State>, steps: seq<Step>, k: nat)
    requires ValidEnv(e) && IsRun(e, states, steps) && k < |steps|
    requires states[0].files == map[] && states[0].phase.Idle?
    ensures steps[k].Load? && PathFor(steps[k].uri, steps[k].start) in states[k].files ==>
              var path := PathFor(steps[k].uri, steps[k].start);
              states[k].files[path].bytes == BlockOf(e.objects(steps[k].uri), steps[k].start, e.readAhead) != []
    ensures steps[k].Rename? ==>
              var p := states[k].phase;
              TempName(p) in states[k].files &&
              states[k + 1].files[PathFor(p.uri, p.start)].bytes == states[k].files[TempName(p)].bytes
  {
    hide PathFor, TempFor;
    var s := states[k];
    assert Inv(e, states[0]);
    RunKeepsInv(e, states, steps, k);
    if steps[k].Load? {
      assert HoldsBlock(s.files, e.objects, e.readAhead, steps[k].uri, steps[k].start);
    } else if steps[k].Rename? {
      assert Data(e, s.phase)[..s.phase.written] == Data(e, s.phase);
    }
  }
}
