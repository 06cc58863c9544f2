/** One signed request with its retries: the callbacks that carry the body in and out in libcurl's chunks, the
    retry loop around them, and the exact range read built on it.
 */
module Requests {
  import opened Bytes
  import opened Text
  import opened Http
  import opened CacheTruth

  const TEXT_CAP: nat := 0x100_0000  // the largest list page or error body kept in memory

  // --- The other end ---

  // What libcurl does with the callbacks during one attempt, in any order and in pieces of any size.
  datatype Event =
    | Ask(room: nat, seekWorks: bool, readWorks: bool)  // upload_read, with what the file system does
    | Chunk(data: seq<byte>)                            // sink_write

  datatype Exchange = Exchange(events: seq<Event>, rc: CurlCode, code: int, etag: string)

  // The k-th attempt of a request.
  type Exchanges = nat -> Exchange

  // The whole body of a reply.
  function Body(events: seq<Event>): seq<byte> {
    if events == [] then [] else (if events[0].Chunk? then events[0].data else []) + Body(events[1..])
  }

  // --- One attempt, as a function ---

  // A request body: `len` bytes from `start`, in memory or in a file.
  datatype Source = Source(bytes: seq<byte>, start: nat, len: nat, isFile: bool)

  const NO_BODY := Source([], 0, 0, false)

  predicate ValidSource(src: Source) {
    !src.isFile ==> src.start + src.len <= |src.bytes|
  }

  // The first `count` bytes of a request body.
  function SentPart(src: Source, count: nat): seq<byte>
    requires count > 0 ==> src.start + count <= |src.bytes|
  {
    if count == 0 then [] else src.bytes[src.start..src.start + count]
  }

  datatype Transferred = Transferred(kept: seq<byte>, sent: nat, overflow: bool, failed: bool)

  predicate Broken(src: Source, sent: nat, ask: Event)
    requires ask.Ask?
  {
    var want := Want(src, sent, ask.room);
    && src.isFile && want > 0
    && ((sent == 0 && !ask.seekWorks) || !ask.readWorks || src.start + sent + want > |src.bytes|)
  }

  function Want(src: Source, sent: nat, room: nat): nat {
    if src.len < sent then 0 else if room < src.len - sent then room else src.len - sent
  }

  // What is kept of the reply and how much of the body is sent, up to the first callback that aborts.
  function Transfer(events: seq<Event>, limit: nat, src: Source, t: Transferred): Transferred
    decreases |events|
  {
    if events == [] then t
    else
      match events[0]
      case Ask(room, _, _) =>
        if Broken(src, t.sent, events[0]) then t.(failed := true)
        else Transfer(events[1..], limit, src, t.(sent := t.sent + Want(src, t.sent, room)))
      case Chunk(data) =>
        if |t.kept| + |data| > limit then t.(overflow := true)
        else Transfer(events[1..], limit, src, t.(kept := t.kept + data))
  }

  const START := Transferred([], 0, false, false)

  /** What an attempt keeps is a beginning of the reply's body, never more than the limit; all of it unless a
      callback aborted. What it sends is never more than the body. */
  lemma {:induction false} TransferIsFaithful(events: seq<Event>, limit: nat, src: Source, t0: Transferred)
    requires |t0.kept| <= limit && t0.sent <= src.len && !t0.overflow && !t0.failed
    ensures var t := Transfer(events, limit, src, t0);
      && t.kept <= t0.kept + Body(events) && |t.kept| <= limit && t.sent <= src.len
      && (!t.overflow && !t.failed ==> t.kept == t0.kept + Body(events))
      && (t.overflow ==> |t0.kept| + |Body(events)| > limit)
      && (t.failed ==> src.isFile && !t.overflow)
    decreases |events|
  {
    if events != [] {
      match events[0]
      case Ask(room, _, _) =>
        if !Broken(src, t0.sent, events[0]) {
          TransferIsFaithful(events[1..], limit, src, t0.(sent := t0.sent + Want(src, t0.sent, room)));
        }
      case Chunk(data) =>
        assert t0.kept + Body(events) == t0.kept + data + Body(events[1..]);
        if |t0.kept| + |data| <= limit {
          TransferIsFaithful(events[1..], limit, src, t0.(kept := t0.kept + data));
        }
    }
  }

  // The next callback is to give bytes, and the file has no more.
  predicate PastTheEnd(events: seq<Event>, src: Source, t: Transferred) {
    && events != [] && events[0].Ask? && events[0].room > 0
    && t.sent < src.len && |src.bytes| <= src.start + t.sent
  }

  /** From a file nothing is sent that it does not hold: an attempt that is to send more fails. */
  lemma {:induction false} SendsWhatIsThere(events: seq<Event>, limit: nat, src: Source, t0: Transferred)
    requires src.isFile && !t0.overflow && !t0.failed && (t0.sent > 0 ==> src.start + t0.sent <= |src.bytes|)
    ensures var t := Transfer(events, limit, src, t0);
      && (t.sent > 0 ==> src.start + t.sent <= |src.bytes|)
      && (PastTheEnd(events, src, t0) ==> t.failed && t.sent == t0.sent)
    decreases |events|
  {
    if events != [] {
      match events[0]
      case Ask(room, _, _) =>
        if !Broken(src, t0.sent, events[0]) {
          SendsWhatIsThere(events[1..], limit, src, t0.(sent := t0.sent + Want(src, t0.sent, room)));
        }
      case Chunk(data) =>
        if |t0.kept| + |data| <= limit {
          SendsWhatIsThere(events[1..], limit, src, t0.(kept := t0.kept + data));
        }
    }
  }

  /** A reply that is not read into a buffer is kept whole up to 16 MiB; a longer one stops the transfer. */
  lemma {:induction false} TextIsCapped(events: seq<Event>, src: Source, t0: Transferred)
    requires |t0.kept| <= 16 * 1024 * 1024 && !t0.overflow && !t0.failed && forall e <- events :: e.Chunk?
    ensures var t := Transfer(events, TEXT_CAP, src, t0);
      && (t.overflow <==> |t0.kept| + |Body(events)| > 16 * 1024 * 1024) && !t.failed
      && (!t.overflow ==> t.kept == t0.kept + Body(events))
    decreases |events|
  {
    if events != [] {
      var data := events[0].data;
      assert t0.kept + Body(events) == t0.kept + data + Body(events[1..]);
      if |t0.kept| + |data| <= TEXT_CAP {
        TextIsCapped(events[1..], src, t0.(kept := t0.kept + data));
      }
    }
  }

  // --- The callbacks ---

  class Sink {
    const dst: array?<byte>
    const cap: nat
    var len: nat
    var text: seq<byte>
    var overflow: bool

    constructor (dst: array?<byte>, cap: nat)
      ensures this.dst == dst && this.cap == cap && len == 0 && text == [] && !overflow
    {
      this.dst, this.cap := dst, cap;
      len, text, overflow := 0, [], false;
    }

    // Only the body of a 206 goes to the caller's buffer.
    function Limit(code: int): nat { if dst != null && code == 206 then cap else TEXT_CAP }

    ghost function Kept(code: int): seq<byte>
      requires dst != null ==> len <= dst.Length
      reads this, dst
    {
      if dst != null && code == 206 then dst[..len] else text
    }

    // sink_write: 0 accepted bytes abort the transfer.
    method Write(chunk: seq<byte>, code: int) returns (n: nat)
      requires dst != null ==> len <= cap <= dst.Length
      modifies this`len, this`text, this`overflow, dst
      ensures dst != null ==> len <= cap
      ensures dst != null ==> forall i :: cap <= i < dst.Length ==> dst[i] == old(dst[i])
      ensures |old(Kept(code))| + |chunk| <= Limit(code) ==>
                n == |chunk| && Kept(code) == old(Kept(code)) + chunk && overflow == old(overflow)
      ensures |old(Kept(code))| + |chunk| > Limit(code) ==>
                n == 0 && overflow && Kept(code) == old(Kept(code))
      ensures dst != null && code == 206 ==> text == old(text)
      ensures !(dst != null && code == 206) ==> len == old(len) && (dst != null ==> dst[..] == old(dst[..]))
    {
      if dst != null && code == 206 {
        if |chunk| > cap - len {
          overflow := true;
          return 0;
        }
        forall i | 0 <= i < |chunk| {
          dst[len + i] := chunk[i];
        }
        len := len + |chunk|;
        assert dst[..len] == old(dst[..len]) + chunk;
        return |chunk|;
      }
      if |text| + |chunk| > TEXT_CAP {
        overflow := true;
        return 0;
      }
      text := text + chunk;
      return |chunk|;
    }
  }

  // A stdio stream.
  class FileHandle {
    const bytes: seq<byte>
    var pos: nat

    constructor (bytes: seq<byte>)
      ensures this.bytes == bytes && pos == 0
    {
      this.bytes := bytes;
      pos := 0;
    }

    method Seek(offset: nat, works: bool) returns (ok: bool)
      modifies this
      ensures ok == works && pos == if works then offset else old(pos)
    {
      ok := works;
      if works {
        pos := offset;
      }
    }

    // A read that fails, or that reaches the end, gives fewer bytes than wanted.
    method Read(want: nat, works: bool) returns (got: seq<byte>)
      requires want > 0
      modifies this
      ensures works && old(pos) + want <= |bytes| ==> got == bytes[old(pos)..old(pos) + want] && pos == old(pos) + want
      ensures !(works && old(pos) + want <= |bytes|) ==> |got| < want
    {
      if !works {
        return [];
      }
      got := if pos + want <= |bytes| then bytes[pos..pos + want] else if pos <= |bytes| then bytes[pos..] else [];
      pos := pos + |got|;
    }
  }

  class Upload {
    const src: Source
    const file: FileHandle?
    var at: nat
    var failed: bool

    ghost predicate Valid()
      reads this, file
    {
      && ValidSource(src) && at <= src.len && (at > 0 ==> src.start + at <= |src.bytes|)
      && (src.isFile <==> file != null)
      && (file != null ==> file.bytes == src.bytes && (at > 0 && !failed ==> file.pos == src.start + at))
    }

    constructor (src: Source, file: FileHandle?)
      requires ValidSource(src) && (src.isFile <==> file != null) && (file != null ==> file.bytes == src.bytes)
      ensures Valid() && this.src == src && this.file == file && at == 0 && !failed
    {
      this.src, this.file := src, file;
      at, failed := 0, false;
    }

    // upload_read: the next bytes of the body, exactly as many as fit; never a short body. None aborts.
    method Read(ask: Event) returns (r: Option<seq<byte>>)
      requires Valid() && !failed && ask.Ask?
      modifies this, file
      ensures Valid()
      ensures r.None? <==> Broken(src, old(at), ask)
      ensures failed <==> r.None?
      ensures r.None? ==> at == old(at)
      ensures r.Some? ==> at == old(at) + Want(src, old(at), ask.room)
      ensures r.Some? ==> SentPart(src, old(at)) + r.value == SentPart(src, at)
    {
      var want := if ask.room < src.len - at then ask.room else src.len - at;
      if want == 0 {
        return Some([]);
      }
      if file == null {
        r := Some(src.bytes[src.start + at..src.start + at + want]);
        at := at + want;
        return;
      }
      if at == 0 {
        var ok := file.Seek(src.start, ask.seekWorks);
        if !ok {
          failed := true;
          return None;
        }
      }
      var got := file.Read(want, ask.readWorks);
      if |got| != want {
        failed := true;
        return None;
      }
      at := at + |got|;
      return Some(got);
    }
  }

  // --- One request ---

  datatype Verb = GET | HEAD | PUT | POST | DELETE

  datatype Reply = Reply(rc: CurlCode, code: int, overflow: bool, dstLen: nat, text: seq<byte>, etag: string)

  // What is fixed for all attempts of a request.
  datatype Call = Call(verb: Verb, capped: bool, cap: nat, src: Source)

  predicate ToBuffer(call: Call, x: Exchange) {
    call.capped && x.code == 206
  }

  // Only a PUT or a POST sends a body.
  function SourceOf(call: Call): Source {
    if call.verb.PUT? || call.verb.POST? then call.src else NO_BODY
  }

  function Attempted(call: Call, x: Exchange): Transferred {
    Transfer(x.events, if ToBuffer(call, x) then call.cap else TEXT_CAP, SourceOf(call), START)
  }

  // curl_easy_perform's result: a callback that aborts overrides what else would have come.
  function ResultCode(call: Call, x: Exchange): CurlCode {
    var t := Attempted(call, x);
    if t.overflow then WriteError else if t.failed then OtherError else x.rc
  }

  predicate Retries(call: Call, x: Exchange) {
    var t, rc := Attempted(call, x), ResultCode(call, x);
    !t.failed && if rc.Ok? then IsRetriableStatus(x.code) else !t.overflow && IsRetriable(rc)
  }

  /** An attempt is repeated exactly when it failed in passing and neither side of it was aborted here. */
  lemma RetriesExactly(call: Call, x: Exchange)
    ensures Retries(call, x) <==> Passing(x.rc, x.code) && !Attempted(call, x).failed && !Attempted(call, x).overflow
  {
    hide Attempted;
  }

  // The attempt whose outcome is the reply: the first that is not retried, at most the fourth.
  function LastAttempt(call: Call, exchanges: Exchanges, k: nat): (r: nat)
    requires k <= 3
    ensures k <= r <= 3
    ensures forall j :: k <= j < r ==> Retries(call, exchanges(j))
    ensures r < 3 ==> !Retries(call, exchanges(r))
    decreases 3 - k
  {
    if k < 3 && Retries(call, exchanges(k)) then LastAttempt(call, exchanges, k + 1) else k
  }

  function ReplyOf(call: Call, x: Exchange): Reply {
    var t := Attempted(call, x);
    Reply(if t.failed then ReadError else ResultCode(call, x), x.code, t.overflow,
          if ToBuffer(call, x) then |t.kept| else 0, if ToBuffer(call, x) then [] else t.kept,
          if call.verb.PUT? then x.etag else "")
  }

  /** One attempt: libcurl drives the two callbacks until one of them aborts. The pieces of the body it was
      given, put together, are the beginning of the body. */
  method Perform(call: Call, x: Exchange, sink: Sink, upload: Upload)
    returns (rc: CurlCode, ghost body: seq<byte>)
    requires upload.Valid() && upload.src == SourceOf(call) && upload.at == 0 && !upload.failed
    requires (sink.dst != null <==> call.capped) && sink.cap == call.cap
    requires call.capped ==> call.cap <= sink.dst.Length
    requires sink.len == 0 && sink.text == [] && !sink.overflow
    modifies sink, sink.dst, upload, upload.file
    ensures sink.dst != null ==> forall i :: call.cap <= i < sink.dst.Length ==> sink.dst[i] == old(sink.dst[i])
    ensures sink.dst != null ==> sink.len <= call.cap
    ensures rc == ResultCode(call, x)
    ensures upload.at > 0 ==> upload.src.start + upload.at <= |upload.src.bytes|
    ensures body == SentPart(upload.src, upload.at)
    ensures var t := Attempted(call, x);
      && upload.failed == t.failed && upload.at == t.sent
      && sink.overflow == t.overflow
      && sink.len == (if ToBuffer(call, x) then |t.kept| else 0)
      && (if ToBuffer(call, x) then sink.dst[..sink.len] == t.kept && sink.text == [] else sink.text == t.kept)
  {
    hide Broken, Want;
    var limit := sink.Limit(x.code);
    ghost var t := START;
    body := [];
    assert body == SentPart(upload.src, 0);
    hide SentPart;
    var i := 0;
    while i < |x.events|
      invariant i <= |x.events| && upload.Valid() && !upload.failed && !sink.overflow
      invariant sink.dst != null ==> sink.len <= call.cap
      invariant sink.dst != null ==> forall j :: call.cap <= j < sink.dst.Length ==> sink.dst[j] == old(sink.dst[j])
      invariant body == SentPart(upload.src, upload.at)
      invariant !t.overflow && !t.failed && upload.at == t.sent
      invariant t.kept == sink.Kept(x.code)
      invariant if ToBuffer(call, x) then sink.text == [] else sink.len == 0
      invariant Attempted(call, x) == Transfer(x.events[i..], limit, SourceOf(call), t)
    {
      var event := x.events[i];
      i := i + 1;
      if event.Ask? {
        var sent := upload.Read(event);
        if sent.None? {
          return OtherError, body;
        }
        body := body + sent.value;
        t := t.(sent := upload.at);
      } else {
        var n := sink.Write(event.data, x.code);
        if n != |event.data| || sink.overflow {
          return WriteError, body;
        }
        t := t.(kept := t.kept + event.data);
      }
    }
    rc := x.rc;
  }

  /** The request with its retries. False when no request could be made; otherwise the reply is the last
      attempt's, after at most three that were retried. Each attempt has its own sink and sends the body
      from its start. */
  method RunRequest(call: Call, dst: array?<byte>, file: FileHandle?, exchanges: Exchanges,
                    credentials: bool, handle: bool)
    returns (made: bool, reply: Reply, attempts: nat)
    requires (dst != null <==> call.capped) && (call.capped ==> call.cap <= dst.Length)
    requires ValidSource(SourceOf(call)) && (SourceOf(call).isFile <==> file != null)
    requires file != null ==> file.bytes == SourceOf(call).bytes
    modifies dst, file
    ensures made <==> credentials && handle
    ensures made ==> attempts == LastAttempt(call, exchanges, 0) + 1 <= 4
    ensures made ==> reply == ReplyOf(call, exchanges(attempts - 1))
    ensures made && ToBuffer(call, exchanges(attempts - 1)) ==>
              reply.dstLen <= call.cap && dst[..reply.dstLen] == Attempted(call, exchanges(attempts - 1)).kept
    ensures dst != null ==> forall i :: call.cap <= i < dst.Length ==> dst[i] == old(dst[i])
    ensures !made ==> attempts == 0 && (dst != null ==> dst[..] == old(dst[..]))
  {
    made, reply, attempts := false, Reply(Ok, 0, false, 0, [], ""), 0;
    if !credentials || !handle {
      return;
    }
    hide Transfer, IsRetriable, IsRetriableStatus;
    made := true;
    var attempt := 0;
    while true
      invariant attempt <= 3 && LastAttempt(call, exchanges, 0) == LastAttempt(call, exchanges, attempt)
      invariant dst != null ==> forall i :: call.cap <= i < dst.Length ==> dst[i] == old(dst[i])
      decreases 3 - attempt
    {
      var x := exchanges(attempt);
      var sink := new Sink(dst, call.cap);
      var upload := new Upload(SourceOf(call), file);
      var rc, _ := Perform(call, x, sink, upload);
      reply := Reply(rc, x.code, sink.overflow, sink.len, sink.text, if call.verb.PUT? then x.etag else "");
      attempts := attempt + 1;
      var httpRetriable := rc.Ok? && IsRetriableStatus(x.code);
      if upload.failed {
        reply := reply.(rc := ReadError);
        return;
      }
      var transportRetriable := !rc.Ok? && !sink.overflow && IsRetriable(rc);
      if (httpRetriable || transportRetriable) && attempt < 3 {
        attempt := attempt + 1;
        var ceiling := BackoffCeiling(attempt);
        continue;
      }
      return;
    }
  }

  // --- read_range ---

  // Sections 14.2 and 15.3.7 of RFC 9110: a complete 206 carries the bytes of the range that exist.
  predicate HonestRange(content: seq<byte>, offset: nat, n: nat, x: Exchange) {
    x.rc.Ok? && x.code == 206 ==> Body(x.events) == BlockOf(content, offset, n)
  }

  predicate RangeArrived(n: nat, x: Exchange) {
    x.rc.Ok? && x.code == 206 && |Body(x.events)| == n
  }

  lemma ArrivedIsExact(content: seq<byte>, offset: nat, n: nat, x: Exchange)
    requires n > 0 && RangeArrived(n, x) && HonestRange(content, offset, n, x)
    ensures offset + n <= |content| && Body(x.events) == content[offset..offset + n]
  {
  }

  /** A range that arrives after at most three failures that pass is read: the attempt it arrives in decides. */
  lemma ArrivesAfterTrouble(n: nat, exchanges: Exchanges, k: nat)
    requires k <= 3 && RangeArrived(n, exchanges(k))
    requires var call := Call(GET, true, n, NO_BODY);
      forall j: nat :: j < k ==>
        && Passing(exchanges(j).rc, exchanges(j).code)
        && !Attempted(call, exchanges(j)).failed && !Attempted(call, exchanges(j)).overflow
    ensures LastAttempt(Call(GET, true, n, NO_BODY), exchanges, 0) == k
  {
    hide Attempted, Body, Retries, Passing;
    var call := Call(GET, true, n, NO_BODY);
    RetriesExactly(call, exchanges(k));
    NotPassing(exchanges(k));
    var last := LastAttempt(call, exchanges, 0);
    if last < k {
      RetriesExactly(call, exchanges(last));
    }
  }

  lemma NotPassing(x: Exchange)
    requires x.rc.Ok? && x.code == 206
    ensures !Passing(x.rc, x.code)
  {
  }

  /** Exact range read: true exactly when the last attempt's 206 has n bytes, and then the destination holds
      that body, whatever earlier attempts left there. Nothing past n is ever written. */
  method ReadRange(addressOk: bool, offset: nat, n: nat, dst: array?<byte>, exchanges: Exchanges,
                   credentials: bool, handle: bool)
    returns (ok: bool, attempts: nat)
    requires offset < 0x1_0000_0000_0000_0000 && n < 0x1_0000_0000_0000_0000
    requires dst != null ==> n <= dst.Length
    modifies dst
    ensures attempts <= 4
    ensures dst != null ==> forall i :: n <= i < dst.Length ==> dst[i] == old(dst[i])
    ensures var call := Call(GET, true, n, NO_BODY);
      var last := LastAttempt(call, exchanges, 0);
      && (ok <==> addressOk && (n > 0 ==> dst != null && offset + n <= 0x1_0000_0000_0000_0000 &&
                                          credentials && handle && RangeArrived(n, exchanges(last))))
      && (ok && n > 0 ==> attempts == last + 1 && dst[..n] == Body(exchanges(last).events))
    ensures forall content :: ok && n > 0 && HonestRange(content, offset, n, exchanges(attempts - 1)) ==>
              offset + n <= |content| && dst[..n] == content[offset..offset + n]
  {
    hide Transfer, IsRetriable, IsRetriableStatus, LastAttempt, Body, BlockOf, HonestRange;
    attempts := 0;
    if !addressOk {
      return false, attempts;
    }
    if n == 0 {
      return true, attempts;
    }
    if dst == null {
      return false, attempts;
    }
    if offset > 0xffff_ffff_ffff_ffff - (n - 1) {
      return false, attempts;
    }
    var made, r;
    var call := Call(GET, true, n, NO_BODY);
    made, r, attempts := RunRequest(call, dst, null, exchanges, credentials, handle);
    if !made {
      return false, attempts;
    }
    ghost var x := exchanges(attempts - 1);
    TransferIsFaithful(x.events, if ToBuffer(call, x) then n else TEXT_CAP, NO_BODY, START);
    if r.overflow || !r.rc.Ok? {
      return false, attempts;
    }
    if r.code == 200 {
      return false, attempts;
    }
    if r.code != 206 {
      return false, attempts;
    }
    if r.dstLen != n {
      return false, attempts;
    }
    forall content | HonestRange(content, offset, n, x)
      ensures offset + n <= |content| && Body(x.events) == content[offset..offset + n]
    {
      ArrivedIsExact(content, offset, n, x);
    }
    ok := true;
  }
}
