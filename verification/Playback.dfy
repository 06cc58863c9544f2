/** Whole runs of the reader against a flat byte array: what a caller sees of any sequence of seeks and reads
    is what indexing the object would show.
 */
module Playback {
  import opened Bytes
  import opened Text
  import opened DiskCache
  import opened CacheTruth
  import opened Http
  import opened Reader

  // What the caller does: an absolute seek, a relative one, consuming a byte, looking at one.
  datatype Op = SeekTo(p: nat) | Skip(d: int) | Get | Peek

  // What the caller sees. At is the result of a seek: where it was sent, or -1.
  datatype Out = At(p: int) | Data(b: byte) | Eof | Failed

  // Where a seek to a position leaves the position.
  type Seeking = nat -> nat

  // --- The flat array ---

  function FlatNext(content: seq<byte>, seek: Seeking, pos: nat, op: Op): nat {
    match op
    case SeekTo(p) => seek(p)
    case Skip(d) => if pos + d < 0 then pos else seek(pos + d)
    case Get => if pos < |content| then pos + 1 else pos
    case Peek => pos
  }

  function FlatOut(content: seq<byte>, pos: nat, op: Op): Out {
    match op
    case SeekTo(p) => At(p)
    case Skip(d) => At(if pos + d < 0 then -1 else pos + d)
    case Get => if pos < |content| then Data(content[pos]) else Eof
    case Peek => if pos < |content| then Data(content[pos]) else Eof
  }

  function FlatRun(content: seq<byte>, seek: Seeking, pos: nat, ops: seq<Op>): (outs: seq<Out>)
    ensures |outs| == |ops|
    decreases |ops|
  {
    if ops == [] then []
    else [FlatOut(content, pos, ops[0])] + FlatRun(content, seek, FlatNext(content, seek, pos, ops[0]), ops[1..])
  }

  // --- The stream, as its caller sees it ---

  // One operation; `ok` says whether a load, if it needs one, succeeds.
  function ViewNext(g: Setting, v: View, op: Op, ok: bool): View
    requires g.readAhead > 0
  {
    match op
    case SeekTo(p) => SoughtView(g, v, p, ok)
    case Skip(d) => if v.pos + d < 0 then v else SoughtView(g, v, v.pos + d, ok)
    case Get =>
      var w := RefilledView(g, v, ok);
      if w.pos < w.start + w.len then w.(pos := w.pos + 1) else w
    case Peek => RefilledView(g, v, ok)
  }

  function ViewOut(content: seq<byte>, g: Setting, v: View, op: Op, ok: bool): Out
    requires g.readAhead > 0
  {
    match op
    case SeekTo(p) => if SoughtView(g, v, p, ok).clean then At(p) else Failed
    case Skip(d) =>
      if v.pos + d < 0 then At(-1)
      else if SoughtView(g, v, v.pos + d, ok).clean then At(v.pos + d)
      else Failed
    case Get => Read(content, RefilledView(g, v, ok))
    case Peek => Read(content, RefilledView(g, v, ok))
  }

  function Read(content: seq<byte>, w: View): Out {
    if w.pos < w.start + w.len && w.pos < |content| then Data(content[w.pos])
    else if w.clean then Eof
    else Failed
  }

  function ViewAfter(g: Setting, v: View, ops: seq<Op>, oks: seq<bool>): View
    requires g.readAhead > 0 && |ops| == |oks|
    decreases |ops|
  {
    if ops == [] then v else ViewAfter(g, ViewNext(g, v, ops[0], oks[0]), ops[1..], oks[1..])
  }

  function ViewRun(content: seq<byte>, g: Setting, v: View, ops: seq<Op>, oks: seq<bool>): (outs: seq<Out>)
    requires g.readAhead > 0 && |ops| == |oks|
    ensures |outs| == |ops|
    decreases |ops|
  {
    if ops == [] then []
    else [ViewOut(content, g, v, ops[0], oks[0])] +
         ViewRun(content, g, ViewNext(g, v, ops[0], oks[0]), ops[1..], oks[1..])
  }

  // The views of a stream over an object: the window is inside the object, the flag is right unless an error
  // is pending, and only a clean window holds bytes.
  predicate Sensible(g: Setting, v: View)
    requires g.readAhead > 0
  {
    && v.start <= v.pos <= v.start + v.len
    && (v.len > 0 ==> v.clean && v.start + v.len <= g.size && (!v.eof ==> v.len == g.readAhead))
    && (v.clean && v.eof ==> g.size <= v.start + v.len)
    && (g.style.Ranges? && g.cacheOn ==> v.start % g.readAhead == 0)
    && (g.style.Whole? ==> v.start == 0 && (v.len > 0 ==> v.eof))
  }

  lemma LoadedIsSensible(g: Setting, target: nat)
    requires g.readAhead > 0
    ensures var w := LoadedView(g, target);
      && Sensible(g, w) && w.clean && w.pos == Landing(g.size, g.style, g.cacheOn, g.readAhead, target)
      && (target < g.size ==> w.pos < w.start + w.len)
  {
    AlignFacts(target, g.readAhead);
  }

  /** Every operation, at any moment, either fails and leaves the position at the window's start, or shows what
      the flat array shows at the position, and moves as it does. */
  lemma OperationIsFlat(content: seq<byte>, g: Setting, v: View, op: Op, ok: bool)
    requires g.readAhead > 0 && g.size == |content| && Sensible(g, v)
    ensures var out, w := ViewOut(content, g, v, op, ok), ViewNext(g, v, op, ok);
      && Sensible(g, w)
      && if out.Failed? then w.pos == w.start == v.start && !w.clean
         else out == FlatOut(content, v.pos, op) && w.pos == FlatNext(content, LandingsOf(g), v.pos, op)
  {
    hide LoadedView, Landing, SoughtView, RefilledView;
    match op
    case SeekTo(p) => SeekIsFlat(g, v, p, ok);
    case Skip(d) =>
      if v.pos + d >= 0 {
        SeekIsFlat(g, v, v.pos + d, ok);
      }
    case Get => RefillIsFlat(g, v, ok);
    case Peek => RefillIsFlat(g, v, ok);
  }

  lemma SeekIsFlat(g: Setting, v: View, target: nat, ok: bool)
    requires g.readAhead > 0 && Sensible(g, v)
    ensures var w := SoughtView(g, v, target, ok);
      && Sensible(g, w)
      && if w.clean then w.pos == Landing(g.size, g.style, g.cacheOn, g.readAhead, target)
         else w.pos == w.start == v.start
  {
    hide LoadedView;
    LoadedIsSensible(g, target);
  }

  lemma RefillIsFlat(g: Setting, v: View, ok: bool)
    requires g.readAhead > 0 && Sensible(g, v)
    ensures var w := RefilledView(g, v, ok);
      && Sensible(g, w)
      && if w.clean then w.pos == v.pos && (w.pos < w.start + w.len <==> v.pos < g.size)
         else w.pos == w.start == v.start && w.len == 0
  {
    var next := v.start + v.len;
    LoadedIsSensible(g, next);
    MultipleNext(v.start, g.readAhead);
    LandingIsExact(g.size, g.style, g.cacheOn, g.readAhead, next);
    EmptyIsEof(g, next);
  }

  /** A failed operation keeps the position exactly when it was at the window's start. */
  lemma FailureMoves(content: seq<byte>, g: Setting, v: View, op: Op, ok: bool)
    requires g.readAhead > 0 && g.size == |content| && Sensible(g, v) && ViewOut(content, g, v, op, ok).Failed?
    ensures ViewNext(g, v, op, ok).pos == v.start
    ensures ViewNext(g, v, op, ok).pos == v.pos <==> v.pos == v.start
  {
    OperationIsFlat(content, g, v, op, ok);
  }

  // The window, which may be empty, covers p or ends there.
  predicate InReach(v: View, p: nat) { v.len > 0 && v.start <= p <= v.start + v.len }

  /** Without a load that works, an operation fails exactly when it seeks out of reach of a live window, or reads
      at the window's end with the object's end unknown or an error pending. */
  lemma FailsExactly(content: seq<byte>, g: Setting, v: View, op: Op)
    requires g.readAhead > 0 && g.size == |content| && Sensible(g, v)
    ensures ViewOut(content, g, v, op, false).Failed? <==>
      match op
      case SeekTo(p) => !InReach(v, p)
      case Skip(d) => v.pos + d >= 0 && !InReach(v, v.pos + d)
      case Get => v.pos == v.start + v.len && !(v.eof && v.clean)
      case Peek => v.pos == v.start + v.len && !(v.eof && v.clean)
  {
    hide LoadedView, Landing;
  }

  /** With one, it fails only where an error is pending at the object's end: a seek never does. */
  lemma WorksExactly(content: seq<byte>, g: Setting, v: View, op: Op)
    requires g.readAhead > 0 && g.size == |content| && Sensible(g, v)
    ensures ViewOut(content, g, v, op, true).Failed? <==>
            (op.Get? || op.Peek?) && v.pos == v.start + v.len && v.eof && !v.clean
  {
    hide Landing;
    if op.Get? || op.Peek? {
      LoadedIsRead(content, g, v.start + v.len);
    }
  }

  lemma LoadedIsRead(content: seq<byte>, g: Setting, target: nat)
    requires g.readAhead > 0 && g.size == |content|
    ensures !Read(content, LoadedView(g, target)).Failed?
  {
    AlignFacts(target, g.readAhead);
  }

  /** So for whole runs, whatever fails in between: each operation shows what the flat array shows at the
      position the operations before it have left. */
  lemma {:induction false} RunIsFlat(content: seq<byte>, g: Setting, v: View, ops: seq<Op>, oks: seq<bool>, k: nat)
    requires g.readAhead > 0 && g.size == |content| && Sensible(g, v) && |ops| == |oks| && k < |ops|
    ensures var before, after := ViewAfter(g, v, ops[..k], oks[..k]), ViewAfter(g, v, ops[..k + 1], oks[..k + 1]);
      var out := ViewRun(content, g, v, ops, oks)[k];
      if out.Failed? then after.pos == before.start
      else out == FlatOut(content, before.pos, ops[k]) &&
           after.pos == FlatNext(content, LandingsOf(g), before.pos, ops[k])
    decreases k
  {
    hide ViewOut, ViewNext, Sensible;
    OperationIsFlat(content, g, v, ops[0], oks[0]);
    if k == 0 {
      assert ops[..0] == [] && oks[..0] == [];
      assert ops[..1][1..] == [] && oks[..1][1..] == [];
    } else {
      RunIsFlat(content, g, ViewNext(g, v, ops[0], oks[0]), ops[1..], oks[1..], k - 1);
      assert ops[..k][1..] == ops[1..][..k - 1] && oks[..k][1..] == oks[1..][..k - 1];
      assert ops[..k + 1][1..] == ops[1..][..k] && oks[..k + 1][1..] == oks[1..][..k];
    }
  }

  /** A run in which nothing fails is the flat array's run. */
  lemma {:induction false} CleanRunIsFlat(content: seq<byte>, g: Setting, v: View, ops: seq<Op>, oks: seq<bool>)
    requires g.readAhead > 0 && g.size == |content| && Sensible(g, v) && |ops| == |oks|
    requires Failed !in ViewRun(content, g, v, ops, oks)
    ensures ViewRun(content, g, v, ops, oks) == FlatRun(content, LandingsOf(g), v.pos, ops)
    decreases |ops|
  {
    hide ViewNext, ViewOut, Sensible;
    if ops != [] {
      OperationIsFlat(content, g, v, ops[0], oks[0]);
      var out, rest := ViewOut(content, g, v, ops[0], oks[0]),
                       ViewRun(content, g, ViewNext(g, v, ops[0], oks[0]), ops[1..], oks[1..]);
      assert out in [out] + rest && forall o <- rest :: o in [out] + rest;
      CleanRunIsFlat(content, g, ViewNext(g, v, ops[0], oks[0]), ops[1..], oks[1..]);
    }
  }

  // How far a run can move the position forward.
  function Climb(ops: seq<Op>): nat {
    if ops == [] then 0
    else (match ops[0]
          case SeekTo(p) => p
          case Skip(d) => if d > 0 then d else 0
          case Get => 1
          case Peek => 0) + Climb(ops[1..])
  }

  function Landings(size: nat, style: Style, cacheOn: bool, readAhead: nat): Seeking
    requires readAhead > 0
  {
    p => Landing(size, style, cacheOn, readAhead, p)
  }

  function LandingsOf(g: Setting): Seeking
    requires g.readAhead > 0
  {
    Landings(g.size, g.style, g.cacheOn, g.readAhead)
  }

  // Indexing the bare object: a seek goes where it is sent.
  function Bare(): Seeking { p => p }

  // --- Other threads ---

  // What other threads' cache sections leave in the directory, and on its clock, before each operation.
  type Others = nat -> (Dir, int)

  // They keep the blocks true, and cache nothing of an object whose server ignores ranges.
  ghost predicate Harmless(buf: S3Streambuf, others: Others)
    requires buf.readAhead > 0
  {
    forall k ::
      && (forall n :: n in others(k).0 ==> others(k).0[n].mtime <= others(k).1)
      && Truthful(others(k).0, buf.objects, buf.uris, buf.readAhead)
      && (buf.style.Whole? ==> forall start :: PathFor(buf.uri, start) !in others(k).0)
  }

  method OthersRun(buf: S3Streambuf, others: Others, k: nat)
    requires buf.Valid() && Harmless(buf, others)
    modifies buf.cache`files, buf.cache`clock
    ensures buf.Valid() && buf.World() == old(buf.World()) && buf.Seen() == old(buf.Seen())
  {
    hide Honest, InStyle, Truthful, PathFor, BuildEndpoint, S3Streambuf.Area;
    buf.cache.files, buf.cache.clock := others(k).0, others(k).1;
  }

  // --- Runs ---

  // The load an operation needs, if it needs one, will succeed.
  predicate WillLoad(buf: S3Streambuf, op: Op)
    requires buf.readAhead > 0 && buf.cfg.maxAttempts > 0
    reads buf, buf.cache
  {
    match op
    case SeekTo(p) => buf.Succeeds(p)
    case Skip(d) => buf.CurPos() + d >= 0 && buf.Succeeds(buf.CurPos() + d)
    case Get => buf.Succeeds(buf.windowStart + buf.windowLen)
    case Peek => buf.Succeeds(buf.windowStart + buf.windowLen)
  }

  lemma ValidIsSensible(buf: S3Streambuf)
    requires buf.Valid()
    ensures buf.readAhead > 0 && buf.cfg.maxAttempts > 0 && Sensible(buf.World(), buf.Seen())
  {
  }

  // What one operation shows and leaves is decided by the view and by whether its load succeeds.
  method Step(buf: S3Streambuf, op: Op) returns (out: Out)
    requires buf.Valid() && buf.CurPos() + Climb([op]) + buf.readAhead <= 0x8000_0000_0000_0000
    modifies buf, buf.cache
    ensures buf.Valid() && buf.World() == old(buf.World())
    ensures buf.Seen() == ViewNext(buf.World(), old(buf.Seen()), op, old(WillLoad(buf, op)))
    ensures out == ViewOut(buf.content, buf.World(), old(buf.Seen()), op, old(WillLoad(buf, op)))
    ensures buf.Reliable() && old(buf.lastError.Clean?) ==> buf.lastError.Clean?
    ensures buf.CurPos() <= old(buf.CurPos()) + Climb([op])
  {
    ValidIsSensible(buf);
    MovesAtMost(buf.content, buf.World(), buf.Seen(), op, WillLoad(buf, op));
    hide ViewNext, ViewOut, WillLoad, Climb, S3Streambuf.Valid, S3Streambuf.Reliable;
    if op.Get? || op.Peek? {
      out := StepRead(buf, op);
    } else if op.SeekTo? {
      out := StepTo(buf, op);
    } else {
      out := StepBy(buf, op);
    }
  }

  method StepRead(buf: S3Streambuf, op: Op) returns (out: Out)
    requires buf.Valid() && (op.Get? || op.Peek?) && buf.CurPos() + buf.readAhead <= 0x8000_0000_0000_0000
    modifies buf, buf.cache
    ensures buf.Valid() && buf.World() == old(buf.World())
    ensures buf.Seen() == ViewNext(buf.World(), old(buf.Seen()), op, old(WillLoad(buf, op)))
    ensures out == ViewOut(buf.content, buf.World(), old(buf.Seen()), op, old(WillLoad(buf, op)))
    ensures buf.Reliable() && old(buf.lastError.Clean?) ==> buf.lastError.Clean?
  {
    hide Landing, LoadedView, Sensible, Climb, SoughtView, RefilledView, S3Streambuf.Reliable, S3Streambuf.Succeeds;
    hide S3Streambuf.Area, S3Streambuf.Environment, S3Streambuf.Styled, S3Streambuf.Target;
    var c;
    if op.Get? {
      c := buf.Get();
    } else {
      c := buf.Peek();
    }
    out := if c.Some? then Data(c.value) else if buf.lastError.Clean? then Eof else Failed;
  }

  method StepTo(buf: S3Streambuf, op: Op) returns (out: Out)
    requires buf.Valid() && op.SeekTo?
    requires buf.CurPos() + Climb([op]) + buf.readAhead <= 0x8000_0000_0000_0000
    modifies buf, buf.cache
    ensures buf.Valid() && buf.World() == old(buf.World())
    ensures buf.Seen() == ViewNext(buf.World(), old(buf.Seen()), op, old(WillLoad(buf, op)))
    ensures out == ViewOut(buf.content, buf.World(), old(buf.Seen()), op, old(WillLoad(buf, op)))
    ensures buf.Reliable() && old(buf.lastError.Clean?) ==> buf.lastError.Clean?
  {
    ValidIsSensible(buf);
    MovesAtMost(buf.content, buf.World(), buf.Seen(), op, WillLoad(buf, op));
    hide Landing, LoadedView, Sensible, Climb, SoughtView, RefilledView, S3Streambuf.Reliable, S3Streambuf.Succeeds;
    hide S3Streambuf.Area, S3Streambuf.Environment, S3Streambuf.Styled, S3Streambuf.Target;
    hide S3Streambuf.Refilled, S3Streambuf.Deciding, Landings;
    var r := buf.SeekPos(op.p, true);
    out := if buf.lastError.Clean? then At(r) else Failed;
  }

  method StepBy(buf: S3Streambuf, op: Op) returns (out: Out)
    requires buf.Valid() && op.Skip?
    requires buf.CurPos() + Climb([op]) + buf.readAhead <= 0x8000_0000_0000_0000
    modifies buf, buf.cache
    ensures buf.Valid() && buf.World() == old(buf.World())
    ensures buf.Seen() == ViewNext(buf.World(), old(buf.Seen()), op, old(WillLoad(buf, op)))
    ensures out == ViewOut(buf.content, buf.World(), old(buf.Seen()), op, old(WillLoad(buf, op)))
    ensures buf.Reliable() && old(buf.lastError.Clean?) ==> buf.lastError.Clean?
  {
    ValidIsSensible(buf);
    MovesAtMost(buf.content, buf.World(), buf.Seen(), op, WillLoad(buf, op));
    hide Landing, LoadedView, Sensible, Climb, SoughtView, RefilledView, S3Streambuf.Reliable, S3Streambuf.Succeeds;
    hide S3Streambuf.Area, S3Streambuf.Environment, S3Streambuf.Styled, S3Streambuf.Target;
    hide S3Streambuf.Refilled, S3Streambuf.Deciding, Landings, S3Streambuf.Valid;
    var before := buf.CurPos();
    var r := buf.SeekOff(op.d, Cur, true);
    out := if before + op.d < 0 || buf.lastError.Clean? then At(r) else Failed;
  }

  // How far one operation moves the position.
  lemma MovesAtMost(content: seq<byte>, g: Setting, v: View, op: Op, ok: bool)
    requires g.readAhead > 0 && g.size == |content| && Sensible(g, v)
    ensures ViewNext(g, v, op, ok).pos <= v.pos + Climb([op])
    ensures op.SeekTo? ==> op.p <= Climb([op])
    ensures op.Skip? ==> v.pos + op.d <= v.pos + Climb([op])
  {
    hide Landing, LoadedView, Sensible, ViewNext, ViewOut;
    assert [op][1..] == [] && Climb([]) == 0;
    OperationIsFlat(content, g, v, op, ok);
    if op.SeekTo? {
      LandingIsExact(g.size, g.style, g.cacheOn, g.readAhead, op.p);
    } else if op.Skip? && v.pos + op.d >= 0 {
      LandingIsExact(g.size, g.style, g.cacheOn, g.readAhead, v.pos + op.d);
    }
    SensibleOrder(g, v);
  }

  lemma SensibleOrder(g: Setting, v: View)
    requires g.readAhead > 0 && Sensible(g, v)
    ensures v.start <= v.pos
  {
  }

  /** A whole run, with other threads at work in the cache between the operations. Whatever the file system,
      the credentials and the server do, the stream shows its caller exactly what the view shows, given which
      loads succeed; so by RunIsFlat it follows the flat array, from the window's start after a failure. When
      nothing can fail, the run is the flat array's. */
  method Play(buf: S3Streambuf, ops: seq<Op>, others: Others) returns (outs: seq<Out>, ghost oks: seq<bool>)
    requires buf.Valid() && Harmless(buf, others)
    requires buf.CurPos() + Climb(ops) + buf.readAhead <= 0x8000_0000_0000_0000
    modifies buf, buf.cache
    ensures buf.Valid() && buf.World() == old(buf.World()) && |outs| == |oks| == |ops|
    ensures outs == ViewRun(buf.content, buf.World(), old(buf.Seen()), ops, oks)
    ensures buf.Seen() == ViewAfter(buf.World(), old(buf.Seen()), ops, oks)
    ensures buf.Reliable() && old(buf.lastError.Clean?) ==>
              outs == FlatRun(buf.content, LandingsOf(buf.World()), old(buf.CurPos()), ops)
  {
    ValidIsSensible(buf);
    ghost var g, v := buf.World(), buf.Seen();
    outs, oks := Resume(buf, ops, others, 0);
    if Failed !in outs {
      CleanRunIsFlat(buf.content, g, v, ops, oks);
    }
  }

  method Resume(buf: S3Streambuf, ops: seq<Op>, others: Others, k: nat) returns (outs: seq<Out>, ghost oks: seq<bool>)
    requires buf.Valid() && Harmless(buf, others)
    requires buf.CurPos() + Climb(ops) + buf.readAhead <= 0x8000_0000_0000_0000
    modifies buf, buf.cache
    ensures buf.Valid() && buf.World() == old(buf.World()) && |outs| == |oks| == |ops|
    ensures outs == ViewRun(buf.content, buf.World(), old(buf.Seen()), ops, oks)
    ensures buf.Seen() == ViewAfter(buf.World(), old(buf.Seen()), ops, oks)
    ensures buf.Reliable() && old(buf.lastError.Clean?) ==> Failed !in outs
    decreases |ops|
  {
    ValidIsSensible(buf);
    hide ViewNext, ViewOut, Harmless, S3Streambuf.Valid, S3Streambuf.Reliable, S3Streambuf.World;
    if ops == [] {
      return [], [];
    }
    assert [ops[0]][1..] == [];
    OthersRun(buf, others, k);
    ghost var g, v, ok := buf.World(), buf.Seen(), WillLoad(buf, ops[0]);
    OperationIsFlat(buf.content, g, v, ops[0], ok);
    var out := Step(buf, ops[0]);
    var rest; ghost var later;
    rest, later := Resume(buf, ops[1..], others, k + 1);
    outs, oks := [out] + rest, [ok] + later;
    assert oks[1..] == later;
  }
  // --- Reading an object through ---

  function Gets(n: nat): seq<Op> { seq(n, _ => Get) }

  lemma {:induction false} GetsShow(content: seq<byte>, seek: Seeking, pos: nat, n: nat, i: nat)
    requires i < n && pos <= |content|
    ensures FlatRun(content, seek, pos, Gets(n))[i] == if pos + i < |content| then Data(content[pos + i]) else Eof
    decreases n
  {
    assert Gets(n)[1..] == Gets(n - 1);
    if i > 0 {
      GetsShow(content, seek, if pos < |content| then pos + 1 else pos, n - 1, i - 1);
    }
  }

  lemma {:induction false} GetsClimb(n: nat)
    ensures Climb(Gets(n)) == n
  {
    if n > 0 {
      assert Gets(n)[1..] == Gets(n - 1);
      GetsClimb(n - 1);
    }
  }

  /** Reading a stream from start to end gives the object, byte by byte, and then the end of file: for every
      object and read-ahead, with the cache on or off. */
  method ReadThrough(cfg: Config, location: Location, content: seq<byte>, readAhead: nat, cacheOn: bool)
    returns (outs: seq<Out>)
    requires cfg.maxAttempts > 0 && readAhead > 0 && |content| + readAhead < 0x8000_0000_0000_0000
    ensures |outs| == |content| + 1 && outs[|content|] == Eof
    ensures forall i :: 0 <= i < |content| ==> outs[i] == Data(content[i])
  {
    hide S3Streambuf.Valid, S3Streambuf.Reliable;
    var buf := ReliableStream(cfg, location, content, readAhead, cacheOn);
    var n := |content| + 1;
    GetsClimb(n);
    ghost var oks;
    outs, oks := Play(buf, Gets(n), _ => (map[], 0));
    forall i | 0 <= i < n
      ensures outs[i] == if i < |content| then Data(content[i]) else Eof
    {
      GetsShow(content, Landings(|content|, buf.style, buf.cache.enabled, readAhead), 0, n, i);
    }
  }

  // --- What the cache, the read-ahead and the server's style change ---

  // Positions inside the object are kept, and those past its end stay there.
  ghost predicate Sound(size: nat, seek: Seeking) {
    forall p: nat :: (p <= size ==> seek(p) == p) && (p >= size ==> seek(p) >= size)
  }

  lemma LandingsSound(size: nat, style: Style, cacheOn: bool, readAhead: nat)
    requires readAhead > 0
    ensures Sound(size, Landings(size, style, cacheOn, readAhead))
  {
    forall p: nat
      ensures (p <= size ==> Landing(size, style, cacheOn, readAhead, p) == p) &&
              (p >= size ==> Landing(size, style, cacheOn, readAhead, p) >= size)
    {
      LandingIsExact(size, style, cacheOn, readAhead, p);
    }
  }

  // Whenever a relative seek starts, the two runs are at the same position, or both refuse it.
  predicate SkipsAgree(content: seq<byte>, a: Seeking, b: Seeking, p: nat, q: nat, ops: seq<Op>)
    decreases |ops|
  {
    ops == [] ||
    (&& (ops[0].Skip? ==> p == q || (p + ops[0].d < 0 && q + ops[0].d < 0))
     && SkipsAgree(content, a, b, FlatNext(content, a, p, ops[0]), FlatNext(content, b, q, ops[0]), ops[1..]))
  }

  // Two positions that only a relative seek can tell apart.
  predicate Alike(size: nat, p: nat, q: nat) {
    p == q || (p >= size && q >= size)
  }

  /** Two runs of the same operations, over any two settings of cache, read-ahead and server style, show the
      same exactly when their relative seeks agree. */
  lemma {:induction false} ShowTheSame(content: seq<byte>, a: Seeking, b: Seeking, p: nat, q: nat, ops: seq<Op>)
    requires Sound(|content|, a) && Sound(|content|, b) && Alike(|content|, p, q)
    ensures FlatRun(content, a, p, ops) == FlatRun(content, b, q, ops) <==> SkipsAgree(content, a, b, p, q, ops)
    decreases |ops|
  {
    if ops != [] {
      var op := ops[0];
      var nextP, nextQ := FlatNext(content, a, p, op), FlatNext(content, b, q, op);
      SameList(FlatOut(content, p, op), FlatRun(content, a, nextP, ops[1..]),
               FlatOut(content, q, op), FlatRun(content, b, nextQ, ops[1..]));
      if op.Skip? ==> p == q || (p + op.d < 0 && q + op.d < 0) {
        ShowTheSame(content, a, b, nextP, nextQ, ops[1..]);
      }
    }
  }

  lemma SameList(x: Out, xs: seq<Out>, y: Out, ys: seq<Out>)
    ensures [x] + xs == [y] + ys <==> x == y && xs == ys
  {
    assert ([x] + xs)[0] == x && ([x] + xs)[1..] == xs;
    assert ([y] + ys)[0] == y && ([y] + ys)[1..] == ys;
  }

  /** A run shows what indexing the bare object shows exactly when no relative seek that is not refused starts
      at a position that an earlier seek past the end was moved from. */
  lemma IndexingIsShown(content: seq<byte>, style: Style, cacheOn: bool, readAhead: nat, pos: nat, ops: seq<Op>)
    requires readAhead > 0
    ensures var seek := Landings(|content|, style, cacheOn, readAhead);
      FlatRun(content, seek, pos, ops) == FlatRun(content, Bare(), pos, ops) <==>
      SkipsAgree(content, seek, Bare(), pos, pos, ops)
  {
    LandingsSound(|content|, style, cacheOn, readAhead);
    ShowTheSame(content, Landings(|content|, style, cacheOn, readAhead), Bare(), pos, pos, ops);
  }

  /** The same run with the disk cache on and with it off, even with different read-aheads, shows the same
      under exactly the same kind of condition. */
  lemma CacheIsInvisible(content: seq<byte>, style: Style, readAhead: nat, otherReadAhead: nat, pos: nat, ops: seq<Op>)
    requires readAhead > 0 && otherReadAhead > 0
    ensures var on := Landings(|content|, style, true, readAhead);
      var off := Landings(|content|, style, false, otherReadAhead);
      FlatRun(content, on, pos, ops) == FlatRun(content, off, pos, ops) <==>
      SkipsAgree(content, on, off, pos, pos, ops)
  {
    LandingsSound(|content|, style, true, readAhead);
    LandingsSound(|content|, style, false, otherReadAhead);
    ShowTheSame(content, Landings(|content|, style, true, readAhead),
                Landings(|content|, style, false, otherReadAhead), pos, pos, ops);
  }

  // No relative seek starts past the end of the object.
  predicate SkipsWithin(content: seq<byte>, pos: nat, ops: seq<Op>)
    decreases |ops|
  {
    ops == [] ||
    ((ops[0].Skip? ==> pos <= |content|) && SkipsWithin(content, FlatNext(content, Bare(), pos, ops[0]), ops[1..]))
  }

  lemma {:induction false} WithinAgrees(content: seq<byte>, a: Seeking, b: Seeking,
                                        ideal: nat, p: nat, q: nat, ops: seq<Op>)
    requires Sound(|content|, a) && Sound(|content|, b) && SkipsWithin(content, ideal, ops)
    requires if ideal <= |content| then p == q == ideal else p >= |content| && q >= |content|
    ensures SkipsAgree(content, a, b, p, q, ops)
    decreases |ops|
  {
    if ops != [] {
      var op := ops[0];
      WithinAgrees(content, a, b, FlatNext(content, Bare(), ideal, op),
                   FlatNext(content, a, p, op), FlatNext(content, b, q, op), ops[1..]);
    }
  }

  /** So a run in which no relative seek starts past the end shows what indexing shows, and the same with the
      cache on or off, with any read-aheads. */
  lemma SameAsIndexing(content: seq<byte>, style: Style, cacheOn: bool, readAhead: nat, pos: nat, ops: seq<Op>)
    requires readAhead > 0 && SkipsWithin(content, pos, ops)
    ensures FlatRun(content, Landings(|content|, style, cacheOn, readAhead), pos, ops)
         == FlatRun(content, Bare(), pos, ops)
  {
    LandingsSound(|content|, style, cacheOn, readAhead);
    WithinAgrees(content, Landings(|content|, style, cacheOn, readAhead), Bare(), pos, pos, pos, ops);
    IndexingIsShown(content, style, cacheOn, readAhead, pos, ops);
  }

  /** Over a server that serves ranges, with the cache off, every run does, wherever its seeks start. */
  lemma UncachedRangesAreExact(content: seq<byte>, readAhead: nat, pos: nat, ops: seq<Op>)
    requires readAhead > 0
    ensures FlatRun(content, Landings(|content|, Ranges, false, readAhead), pos, ops)
         == FlatRun(content, Bare(), pos, ops)
  {
    SameSteps(content, readAhead, pos, ops);
    IndexingIsShown(content, Ranges, false, readAhead, pos, ops);
  }

  lemma {:induction false} SameSteps(content: seq<byte>, readAhead: nat, pos: nat, ops: seq<Op>)
    requires readAhead > 0
    ensures SkipsAgree(content, Landings(|content|, Ranges, false, readAhead), Bare(), pos, pos, ops)
    decreases |ops|
  {
    if ops != [] {
      SameSteps(content, readAhead, FlatNext(content, Bare(), pos, ops[0]), ops[1..]);
    }
  }

  /** The shortest run that shows a difference: a relative seek right after an absolute one to p. */
  lemma SkipFromPastTheEnd(content: seq<byte>, style: Style, cacheOn: bool, readAhead: nat, p: nat, d: int)
    requires readAhead > 0
    ensures FlatRun(content, Landings(|content|, style, cacheOn, readAhead), 0, [SeekTo(p), Skip(d)])
         == FlatRun(content, Bare(), 0, [SeekTo(p), Skip(d)])
        <==> p <= |content| || (style.Ranges? && (cacheOn ==> p % readAhead == 0)) || p + d < 0
  {
    hide Landing;
    LandingIsExact(|content|, style, cacheOn, readAhead, p);
    IndexingIsShown(content, style, cacheOn, readAhead, 0, [SeekTo(p), Skip(d)]);
    var ops := [SeekTo(p), Skip(d)];
    assert ops[1..] == [Skip(d)] && ops[1..][1..] == [];
  }
}
