/** A multipart upload: worker threads that share a counter, a failure flag and an array of ETags, and the
    thread that joins them and completes or aborts. Every interleaving of their atomic steps is a run.
 */
module Multipart {
  import opened Bytes
  import opened Text
  import opened Http
  import opened Requests
  import opened Parts
  import opened Completion
  import opened Totals

  // What is fixed during the upload. The threads number min(max(concurrency, 1), parts).
  datatype Job = Job(file: seq<byte>, partSize: nat, threads: nat)
  {
    predicate Valid() {
      file != [] && partSize > 0 && 0 < threads <= Parts()
    }

    function Parts(): nat
      requires partSize > 0
    {
      PartCount(|file|, partSize)
    }
  }

  // Where a worker is in its loop.
  datatype Worker =
    | Fresh                              // about to open the file
    | Looping                            // about to take an index
    | Claimed(i: nat)                    // has an index, about to check it and the flag
    | Sending(i: nat, attempt: nat)      // in run_request
    | Accepted(i: nat, etag: string)     // about to store the part's ETag
    | Failing(held: Option<nat>)         // about to report a failure
    | Returned
  {
    // The index this worker is responsible for.
    function Index(): Option<nat> {
      match this
      case Claimed(i) => Some(i)
      case Sending(i, _) => Some(i)
      case Accepted(i, _) => Some(i)
      case Failing(held) => held
      case Fresh => None
      case Looping => None
      case Returned => None
    }
  }

  // A part as the server holds it.
  datatype Stored = Stored(body: seq<byte>, etag: string)

  // Requests in the order they start: each attempt of a part, but a completion or an abort once for its call of
  // run_request, which sends it up to four times (Requests.RunRequest).
  datatype Sent = PartSent(i: nat) | CompleteCalled(xml: string) | AbortCalled

  // The thread that runs the upload: with the workers, then completing, then perhaps aborting.
  datatype Phase = Uploading | Completing | Aborting | Finished(ok: bool)

  datatype State = State(
    next: nat, failed: bool, etags: seq<string>, workers: seq<Worker>, phase: Phase,
    server: map<nat, Stored>, log: seq<Sent>)

  function Init(job: Job): State
    requires job.Valid()
  {
    State(0, false, seq(job.Parts(), _ => ""), seq(job.threads, _ => Fresh), Uploading, map[], [])
  }

  // --- Steps ---

  datatype Step =
    | Open(w: nat, ok: bool)
    | Claim(w: nat)                               // i = next++
    | Check(w: nat)                               // i >= parts || failed
    | HashFails(w: nat)                           // the part cannot be read to hash it
    | NoRequest(w: nat)                           // no credentials or no handle
    | Attempt(w: nat, x: Exchange, stored: bool)  // one attempt, and whether the server takes the part
    | Keep(w: nat)                                // part_etags[i] = etag
    | FailWith(w: nat)
    | Join
    | Complete(made: bool, r: Reply)              // whether it could be sent, and the reply
    | Abort

  function PartSource(job: Job, i: nat): Source
    requires job.Valid() && i < job.Parts()
  {
    PartsTile(job.file, job.partSize, i);
    Source(job.file, i * job.partSize, PartEnd(|job.file|, job.partSize, i) - i * job.partSize, true)
  }

  function PartCall(job: Job, i: nat): Call
    requires job.Valid() && i < job.Parts()
  {
    Call(PUT, false, 0, PartSource(job, i))
  }

  // request_failure is empty and the reply has an ETag.
  predicate IsAccepted(r: Reply) {
    r.rc.Ok? && !r.overflow && r.code == 200 && r.etag != ""
  }

  // The characters of a reply.
  function AsText(bytes: seq<byte>): (s: string)
    ensures |s| == |bytes|
  {
    seq(|bytes|, i requires 0 <= i < |bytes| => bytes[i] as int as char)
  }

  // S3 can answer 200 and still fail the completion, and says so in the body.
  predicate SaysError(bytes: seq<byte>) {
    Find(AsText(bytes), "<Error>", 0).Some?
  }

  predicate IsCompleted(r: Reply) {
    r.rc.Ok? && !r.overflow && r.code == 200 && !SaysError(r.text)
  }

  // A server takes a part only when it has received all the bytes announced, and accepts no other.
  predicate HonestPart(call: Call, x: Exchange, stored: bool) {
    && (stored ==> Attempted(call, x).sent == call.src.len)
    && (IsAccepted(ReplyOf(call, x)) ==> stored)
  }

  predicate Enabled(job: Job, s: State, step: Step)
    requires job.Valid()
  {
    match step
    case Open(w, _) => w < |s.workers| && s.workers[w].Fresh?
    case Claim(w) => w < |s.workers| && s.workers[w].Looping?
    case Check(w) => w < |s.workers| && s.workers[w].Claimed?
    case HashFails(w) => w < |s.workers| && s.workers[w].Sending? && s.workers[w].attempt == 0
    case NoRequest(w) => w < |s.workers| && s.workers[w].Sending? && s.workers[w].attempt == 0
    case Attempt(w, x, stored) =>
      && w < |s.workers| && s.workers[w].Sending? && s.workers[w].i < job.Parts()
      && HonestPart(PartCall(job, s.workers[w].i), x, stored)
    case Keep(w) => w < |s.workers| && s.workers[w].Accepted? && s.workers[w].i < |s.etags|
    case FailWith(w) => w < |s.workers| && s.workers[w].Failing?
    case Join => s.phase.Uploading? && forall w <- s.workers :: w.Returned?
    case Complete(_, _) => s.phase.Completing?
    case Abort => s.phase.Aborting?
  }

  function Moved(s: State, w: nat, to: Worker): State
    requires w < |s.workers|
  {
    s.(workers := s.workers[w := to])
  }

  // What the k-th attempt's outcome makes of a worker.
  function AfterAttempt(call: Call, i: nat, attempt: nat, x: Exchange): (w: Worker)
    ensures w.Index() == Some(i)
  {
    if Retries(call, x) && attempt < 3 then Sending(i, attempt + 1)
    else if IsAccepted(ReplyOf(call, x)) then Accepted(i, x.etag)
    else Failing(Some(i))
  }

  function Apply(job: Job, s: State, step: Step): State
    requires job.Valid() && Enabled(job, s, step)
  {
    match step
    case Open(w, ok) => Moved(s, w, if ok then Looping else Failing(None))
    case Claim(w) => Moved(s, w, Claimed(s.next)).(next := s.next + 1)
    case Check(w) =>
      var i := s.workers[w].i;
      Moved(s, w, if i >= job.Parts() || s.failed then Returned else Sending(i, 0))
    case HashFails(w) => Moved(s, w, Failing(s.workers[w].Index()))
    case NoRequest(w) => Moved(s, w, Failing(s.workers[w].Index()))
    case Attempt(w, x, stored) =>
      var i := s.workers[w].i;
      var call := PartCall(job, i);
      var t := Moved(s, w, AfterAttempt(call, i, s.workers[w].attempt, x)).(log := s.log + [PartSent(i)]);
      if stored then t.(server := s.server[i := Stored(Taken(job, i, x), x.etag)]) else t
    case Keep(w) =>
      Moved(s, w, Looping).(etags := s.etags[s.workers[w].i := s.workers[w].etag])
    case FailWith(w) => Moved(s, w, Returned).(failed := true)
    case Join => s.(phase := if s.failed then Aborting else Completing)
    case Complete(made, r) =>
      var t := if made then s.(log := s.log + [CompleteCalled(BodyFor(s.etags))]) else s;
      t.(phase := if made && IsCompleted(r) then Finished(true) else Aborting)
    case Abort => s.(phase := Finished(false), log := s.log + [AbortCalled])
  }

  // The body the server received in an attempt.
  function Taken(job: Job, i: nat, x: Exchange): seq<byte>
    requires job.Valid() && i < job.Parts()
  {
    PartsTile(job.file, job.partSize, i);
    var call := PartCall(job, i);
    TransferIsFaithful(x.events, TEXT_CAP, call.src, START);
    SentPart(call.src, Attempted(call, x).sent)
  }

  // --- The invariant ---

  ghost predicate Shape(job: Job, s: State)
    requires job.Valid()
  {
    && |s.etags| == job.Parts() && |s.workers| == job.threads
    && (forall w :: 0 <= w < |s.workers| ==> WorkerOk(job, s, s.workers[w]))
  }

  ghost predicate WorkerOk(job: Job, s: State, w: Worker)
    requires job.Valid()
  {
    && (w.Index().Some? ==> w.Index().value < s.next)
    && (w.Sending? ==> w.i < job.Parts() && w.attempt <= 3)
    && (w.Accepted? ==> w.i < job.Parts() && w.etag != "" && Holds(job, s.server, w.i, w.etag))
    && (w.Returned? ==> s.failed || s.next > job.Parts())
  }

  // The server holds exactly the bytes of part i, under this ETag.
  ghost predicate Holds(job: Job, server: map<nat, Stored>, i: nat, etag: string)
    requires job.Valid()
  {
    i in server && server[i] == Stored(PartOf(job.file, job.partSize, i), etag)
  }

  // No two workers are responsible for the same index.
  ghost predicate Exclusive(s: State) {
    forall v, w :: 0 <= v < w < |s.workers| && s.workers[v].Index().Some? ==>
                     s.workers[v].Index() != s.workers[w].Index()
  }

  // An ETag is stored for a finished part only, and says what the server holds.
  ghost predicate EtagsTrue(job: Job, s: State)
    requires job.Valid()
  {
    forall i :: 0 <= i < |s.etags| && s.etags[i] != "" ==>
                  && i < s.next && Holds(job, s.server, i, s.etags[i])
                  && forall w :: 0 <= w < |s.workers| ==> s.workers[w].Index() != Some(i)
  }

  ghost predicate InFlight(s: State, i: nat) {
    exists w :: 0 <= w < |s.workers| && s.workers[w].Index() == Some(i)
  }

  // Without a failure, every index taken is finished or in flight.
  ghost predicate Covered(s: State) {
    !s.failed ==> forall i :: 0 <= i < |s.etags| && i < s.next && s.etags[i] == "" ==> InFlight(s, i)
  }

  predicate OnlyParts(log: seq<Sent>) {
    forall sent <- log :: sent.PartSent?
  }

  // At most one completion and at most one abort, in this order, behind every part request.
  ghost predicate Ordered(s: State) {
    match s.phase
    case Uploading => OnlyParts(s.log)
    case Completing => OnlyParts(s.log) && AllReturned(s) && !s.failed
    case Aborting => AllReturned(s) && (OnlyParts(s.log) || EndsWithCompletion(s.log, BodyFor(s.etags)))
    case Finished(ok) =>
      && AllReturned(s)
      && if ok then EndsWithCompletion(s.log, BodyFor(s.etags)) && !s.failed
         else EndsWithAbort(s.log, BodyFor(s.etags))
  }

  predicate AllReturned(s: State) {
    forall w <- s.workers :: w.Returned?
  }

  predicate EndsWithCompletion(log: seq<Sent>, xml: string) {
    log != [] && log[|log| - 1] == CompleteCalled(xml) && OnlyParts(log[..|log| - 1])
  }

  predicate EndsWithAbort(log: seq<Sent>, xml: string) {
    log != [] && log[|log| - 1] == AbortCalled &&
    (OnlyParts(log[..|log| - 1]) || EndsWithCompletion(log[..|log| - 1], xml))
  }

  ghost predicate Inv(job: Job, s: State)
    requires job.Valid()
  {
    Shape(job, s) && Exclusive(s) && EtagsTrue(job, s) && Covered(s) && Ordered(s)
  }

  lemma InitInv(job: Job)
    requires job.Valid()
    ensures Inv(job, Init(job))
  {
  }

  // --- Every step keeps it ---

  // What a step does to the workers: nothing, or it moves one of them.
  function Mover(step: Step): Option<nat> {
    match step
    case Open(w, _) => Some(w)
    case Claim(w) => Some(w)
    case Check(w) => Some(w)
    case HashFails(w) => Some(w)
    case NoRequest(w) => Some(w)
    case Attempt(w, _, _) => Some(w)
    case Keep(w) => Some(w)
    case FailWith(w) => Some(w)
    case Join => None
    case Complete(_, _) => None
    case Abort => None
  }

  // A part the server takes is the whole part.
  lemma TakenIsThePart(job: Job, i: nat, x: Exchange)
    requires job.Valid() && i < job.Parts() && HonestPart(PartCall(job, i), x, true)
    ensures Taken(job, i, x) == PartOf(job.file, job.partSize, i)
  {
    hide Attempted, PartCount, PartEnd;
    PartsTile(job.file, job.partSize, i);
  }

  lemma ExclusiveKept(job: Job, s: State, step: Step)
    requires job.Valid() && Inv(job, s) && Enabled(job, s, step)
    ensures Exclusive(Apply(job, s, step))
  {
    hide HonestPart, AfterAttempt, Taken, PartCall, Holds, Covered, Ordered, EtagsTrue;
  }

  lemma ShapeKept(job: Job, s: State, step: Step)
    requires job.Valid() && Inv(job, s) && Enabled(job, s, step)
    ensures Shape(job, Apply(job, s, step))
  {
    hide Taken, PartOf, Covered, Ordered, EtagsTrue, Attempted, PartCall;
    if step.Attempt? && step.stored {
      TakenIsThePart(job, s.workers[step.w].i, step.x);
    }
  }

  lemma EtagsKept(job: Job, s: State, step: Step)
    requires job.Valid() && Inv(job, s) && Enabled(job, s, step)
    ensures EtagsTrue(job, Apply(job, s, step))
  {
    hide HonestPart, AfterAttempt, Taken, PartCall, PartOf, Covered, Ordered;
  }

  lemma CoveredKept(job: Job, s: State, step: Step)
    requires job.Valid() && Inv(job, s) && Enabled(job, s, step)
    ensures Covered(Apply(job, s, step))
  {
    hide HonestPart, AfterAttempt, Taken, PartCall, Holds, Ordered, EtagsTrue, Exclusive;
    var t := Apply(job, s, step);
    if !t.failed {
      forall i | 0 <= i < |t.etags| && i < t.next && t.etags[i] == ""
        ensures InFlight(t, i)
      {
        if i < s.next {
          assert InFlight(s, i);
          var v :| 0 <= v < |s.workers| && s.workers[v].Index() == Some(i);
          assert t.workers[v].Index() == Some(i);
        } else {
          assert t.workers[step.w].Index() == Some(i);
        }
      }
    }
  }

  // A worker's step adds at most a part request.
  lemma WorkerStepOrders(job: Job, s: State, step: Step)
    requires job.Valid() && Enabled(job, s, step) && Mover(step).Some? && s.phase.Uploading? && OnlyParts(s.log)
    ensures Apply(job, s, step).phase.Uploading? && OnlyParts(Apply(job, s, step).log)
  {
    hide HonestPart, AfterAttempt, Taken, PartCall;
  }

  lemma WorkersRunWhileUploading(job: Job, s: State, step: Step)
    requires job.Valid() && Ordered(s) && Enabled(job, s, step) && Mover(step).Some?
    ensures s.phase.Uploading?
  {
    hide HonestPart, PartCall, OnlyParts, EndsWithCompletion, EndsWithAbort, BodyFor;
    assert s.workers[step.w] in s.workers;
  }

  lemma OrderedKept(job: Job, s: State, step: Step)
    requires job.Valid() && Inv(job, s) && Enabled(job, s, step)
    ensures Ordered(Apply(job, s, step))
  {
    hide HonestPart, AfterAttempt, Taken, PartCall, Shape, Exclusive, Covered, EtagsTrue, BodyFor, IsCompleted;
    hide OnlyParts, AllReturned;
    if Mover(step).Some? {
      WorkersRunWhileUploading(job, s, step);
      WorkerStepOrders(job, s, step);
    } else {
      LastStepsOrder(job, s, step);
    }
  }

  lemma LastStepsOrder(job: Job, s: State, step: Step)
    requires job.Valid() && Ordered(s) && Enabled(job, s, step) && Mover(step).None?
    ensures Ordered(Apply(job, s, step))
  {
    hide HonestPart, AfterAttempt, Taken, PartCall, BodyFor, IsCompleted, OnlyParts;
    var t := Apply(job, s, step);
    if t.log != s.log {
      assert t.log[..|t.log| - 1] == s.log;
    }
  }

  lemma StepKeepsInv(job: Job, s: State, step: Step)
    requires job.Valid() && Inv(job, s) && Enabled(job, s, step)
    ensures Inv(job, Apply(job, s, step))
  {
    hide Apply, Enabled, Shape, Exclusive, EtagsTrue, Covered, Ordered;
    ExclusiveKept(job, s, step);
    ShapeKept(job, s, step);
    EtagsKept(job, s, step);
    CoveredKept(job, s, step);
    OrderedKept(job, s, step);
  }

  // --- Whole runs ---

  ghost predicate IsRun(job: Job, states: seq<State>, steps: seq<Step>)
    requires job.Valid()
  {
    && |states| == |steps| + 1 && states[0] == Init(job)
    && forall k :: 0 <= k < |steps| ==>
         Enabled(job, states[k], steps[k]) && states[k + 1] == Apply(job, states[k], steps[k])
  }

  lemma {:induction false} RunKeepsInv(job: Job, states: seq<State>, steps: seq<Step>, k: nat)
    requires job.Valid() && IsRun(job, states, steps) && k < |states|
    ensures Inv(job, states[k])
  {
    hide Inv, Apply, Enabled, Init;
    if k == 0 {
      InitInv(job);
    } else {
      RunKeepsInv(job, states, steps, k - 1);
      StepKeepsInv(job, states[k - 1], steps[k - 1]);
    }
  }

  /** In every reachable state an index belongs to at most one worker; and as long as nothing has failed, each
      index taken is finished, with its ETag, or in flight in exactly one worker. */
  lemma ClaimsAreExact(job: Job, states: seq<State>, steps: seq<Step>, k: nat, i: nat)
    requires job.Valid() && IsRun(job, states, steps) && k < |states|
    requires i < job.Parts() && i < states[k].next
    ensures var s := states[k];
      && |s.etags| == job.Parts()
      && (forall v, w :: 0 <= v < |s.workers| && 0 <= w < |s.workers| ==>
            (s.workers[v].Index() == s.workers[w].Index() == Some(i) ==> v == w))
      && (s.etags[i] != "" ==> !InFlight(s, i))
      && (!s.failed && s.etags[i] == "" ==> InFlight(s, i))
  {
    RunKeepsInv(job, states, steps, k);
  }

  /** A completion is sent only after every worker has returned, with the ETag of every part in place. */
  lemma CompletionIsWhole(job: Job, s: State)
    requires job.Valid() && Inv(job, s)
    requires s.phase.Completing? || (s.phase.Finished? && s.phase.ok)
    ensures AllReturned(s) && !s.failed && |s.etags| == job.Parts()
    ensures forall i :: 0 <= i < job.Parts() ==> s.etags[i] != "" && Holds(job, s.server, i, s.etags[i])
  {
    hide Holds;
    assert s.workers[0] in s.workers && s.next > job.Parts();
    forall w | 0 <= w < |s.workers|
      ensures s.workers[w].Index().None?
    {
      assert s.workers[w] in s.workers;
    }
    forall i | 0 <= i < job.Parts()
      ensures s.etags[i] != ""
    {
      assert !InFlight(s, i);
    }
  }

  // The parts the server holds under the ETags of a list, one after the other; None when one is not there.
  function Assembled(server: map<nat, Stored>, list: seq<(nat, string)>): Option<seq<byte>> {
    if list == [] then Some([])
    else
      var (number, etag) := list[|list| - 1];
      var rest := Assembled(server, list[..|list| - 1]);
      if rest.None? || number == 0 || number - 1 !in server || server[number - 1].etag != etag then None
      else Some(rest.value + server[number - 1].body)
  }

  lemma {:induction false} AssembledParts(job: Job, server: map<nat, Stored>, list: seq<(nat, string)>)
    requires job.Valid()
    requires forall i :: 0 <= i < |list| ==> list[i].0 == i + 1 && Holds(job, server, i, list[i].1)
    ensures Assembled(server, list) == Some(Joined(PartsOf(job.file, job.partSize, |list|)))
  {
    hide PartOf;
    var n := |list|;
    if n > 0 {
      AssembledParts(job, server, list[..n - 1]);
      var all := PartsOf(job.file, job.partSize, n);
      assert all[..n - 1] == PartsOf(job.file, job.partSize, n - 1);
      assert list[n - 1].0 == n && Holds(job, server, n - 1, list[n - 1].1);
    } else {
      assert PartsOf(job.file, job.partSize, 0) == [];
    }
  }

  /** End to end: when the upload succeeds, the completion it sent, read back, lists parts 1 to n in ascending
      order, each with the ETag the server returned for it and still holds it under, and the parts put
      together in that order are the file. */
  lemma UploadIsTheFile(job: Job, states: seq<State>, steps: seq<Step>, k: nat)
    requires job.Valid() && IsRun(job, states, steps) && k < |states|
    requires states[k].phase == Finished(true)
    ensures var s := states[k];
      && s.log != [] && s.log[|s.log| - 1].CompleteCalled? && |s.etags| == job.Parts()
      && var list := ListedFrom(s.log[|s.log| - 1].xml, 0);
      && list.Some? && |list.value| == job.Parts()
      && (forall i :: 0 <= i < job.Parts() ==> list.value[i] == (i + 1, s.etags[i]))
      && Assembled(s.server, list.value) == Some(job.file)
  {
    var s := states[k];
    RunKeepsInv(job, states, steps, k);
    CompletionIsWhole(job, s);
    assert EndsWithCompletion(s.log, BodyFor(s.etags));
    hide *;
    FileIsListed(job, s.server, s.etags);
  }

  lemma FileIsListed(job: Job, server: map<nat, Stored>, etags: seq<string>)
    requires job.Valid() && |etags| == job.Parts()
    requires forall i :: 0 <= i < |etags| ==> Holds(job, server, i, etags[i])
    ensures var list := ListedFrom(BodyFor(etags), 0);
      && list.Some? && |list.value| == |etags|
      && (forall i :: 0 <= i < |etags| ==> list.value[i] == (i + 1, etags[i]))
      && Assembled(server, list.value) == Some(job.file)
  {
    hide BodyFor, ListedFrom, Holds, Numbered, PartsOf, PartCount, Joined;
    CompletionReadsBack(etags);
    var list := Numbered(etags, 0);
    CountIsExact(|job.file|, job.partSize, |etags|);
    NumberedAt(etags, 0, 0);
    forall i | 0 <= i < |etags|
      ensures list[i] == (i + 1, etags[i])
    {
      NumberedAt(etags, 0, i);
    }
    AssembledParts(job, server, list);
    PartsAreTheFile(job.file, job.partSize);
  }

  /** In every reachable state, no part request starts after a completion or an abort was called for. A
      successful upload called for one completion and no abort; a failed one for exactly one abort, last of all,
      and at most one completion. */
  lemma OneVerdict(job: Job, states: seq<State>, steps: seq<Step>, k: nat)
    requires job.Valid() && IsRun(job, states, steps) && k < |states|
    ensures var s := states[k];
      && PartsFirst(s.log)
      && multiset(s.log)[AbortCalled] == (if s.phase == Finished(false) then 1 else 0)
      && Completions(s.log) <= 1 && (s.phase == Finished(true) ==> Completions(s.log) == 1)
      && (s.phase.Finished? ==>
            s.log != [] && s.log[|s.log| - 1] == if s.phase.ok then CompleteCalled(BodyFor(s.etags)) else AbortCalled)
  {
    RunKeepsInv(job, states, steps, k);
    hide Shape, Exclusive, EtagsTrue, Covered, Ordered, IsRun;
    OrderedVerdict(states[k]);
    if states[k].phase.Finished? {
      LastVerdict(states[k]);
    }
  }

  // How many completions were called for.
  function Completions(log: seq<Sent>): nat {
    if log == [] then 0
    else Completions(log[..|log| - 1]) + if log[|log| - 1].CompleteCalled? then 1 else 0
  }

  lemma {:induction false} NoCompletions(parts: seq<Sent>)
    requires OnlyParts(parts)
    ensures Completions(parts) == 0
  {
    if parts != [] {
      assert parts[|parts| - 1] in parts;
      NoCompletions(parts[..|parts| - 1]);
    }
  }

  lemma OneMore(log: seq<Sent>, last: Sent)
    ensures Completions(log + [last]) == Completions(log) + if last.CompleteCalled? then 1 else 0
  {
    assert (log + [last])[..|log|] == log;
  }

  // Nothing but part requests stands in front of a part request.
  predicate PartsFirst(log: seq<Sent>) {
    forall i, j :: 0 <= i < j < |log| && log[j].PartSent? ==> log[i].PartSent?
  }

  // What a log shows: parts first, and so many completions and aborts.
  predicate Shows(log: seq<Sent>, completions: nat, aborts: nat) {
    PartsFirst(log) && Completions(log) == completions && multiset(log)[AbortCalled] == aborts
  }

  lemma PartsShow(log: seq<Sent>)
    requires OnlyParts(log)
    ensures Shows(log, 0, 0)
  {
    NoCompletions(log);
    PartsCome(log, []);
    assert log + [] == log;
  }

  lemma CompletionShows(log: seq<Sent>, xml: string)
    requires EndsWithCompletion(log, xml)
    ensures Shows(log, 1, 0)
  {
    hide OnlyParts, PartsFirst, Completions;
    var parts := log[..|log| - 1];
    assert log == parts + [CompleteCalled(xml)];
    NoCompletions(parts);
    OneMore(parts, CompleteCalled(xml));
    PartsCome(parts, [CompleteCalled(xml)]);
  }

  lemma AbortShows(log: seq<Sent>, xml: string)
    requires EndsWithAbort(log, xml)
    ensures Shows(log, 0, 1) || Shows(log, 1, 1)
  {
    hide OnlyParts, PartsFirst, Completions;
    var front := log[..|log| - 1];
    assert log == front + [AbortCalled];
    OneMore(front, AbortCalled);
    if OnlyParts(front) {
      NoCompletions(front);
      PartsCome(front, [AbortCalled]);
    } else {
      var parts := front[..|front| - 1];
      assert front == parts + [CompleteCalled(xml)] && log == parts + [CompleteCalled(xml), AbortCalled];
      NoCompletions(parts);
      OneMore(parts, CompleteCalled(xml));
      PartsCome(parts, [CompleteCalled(xml), AbortCalled]);
    }
  }

  lemma OrderedVerdict(s: State)
    requires Ordered(s)
    ensures PartsFirst(s.log)
    ensures Completions(s.log) <= 1 && (s.phase == Finished(true) ==> Completions(s.log) == 1)
    ensures multiset(s.log)[AbortCalled] == (if s.phase == Finished(false) then 1 else 0)
  {
    hide BodyFor, OnlyParts, AllReturned, PartsFirst, Completions, EndsWithCompletion, EndsWithAbort;
    if OnlyParts(s.log) {
      PartsShow(s.log);
    }
    if EndsWithCompletion(s.log, BodyFor(s.etags)) {
      CompletionShows(s.log, BodyFor(s.etags));
    }
    if EndsWithAbort(s.log, BodyFor(s.etags)) {
      AbortShows(s.log, BodyFor(s.etags));
    }
  }

  lemma LastVerdict(s: State)
    requires Ordered(s) && s.phase.Finished?
    ensures s.log != [] &&
            s.log[|s.log| - 1] == if s.phase.ok then CompleteCalled(BodyFor(s.etags)) else AbortCalled
  {
    hide BodyFor, OnlyParts, AllReturned;
  }

  lemma PartsCome(parts: seq<Sent>, rest: seq<Sent>)
    requires OnlyParts(parts) && forall r <- rest :: !r.PartSent?
    ensures PartsFirst(parts + rest)
    ensures multiset(parts + rest)[AbortCalled] == multiset(rest)[AbortCalled]
  {
    assert AbortCalled !in parts;
  }

  // --- Every run ends ---

  // An upper bound on the steps a worker takes before it takes another index.
  function Rank(job: Job, w: Worker): nat
    requires job.Valid()
  {
    match w
    case Fresh => 5
    case Looping => 4
    case Claimed(i) => if i < job.Parts() then 11 else 3
    case Sending(_, attempt) => if attempt < 4 then 10 - attempt else 6
    case Accepted(_, _) => 5
    case Failing(_) => 1
    case Returned => 0
  }

  function Ranking(job: Job): Worker -> nat
    requires job.Valid()
  {
    w => Rank(job, w)
  }

  function PhaseRank(p: Phase): nat {
    match p
    case Uploading => 3
    case Completing => 2
    case Aborting => 1
    case Finished(_) => 0
  }

  // Steps left, at most.
  function Measure(job: Job, s: State): nat
    requires job.Valid()
  {
    8 * (if s.next < job.Parts() then job.Parts() - s.next else 0) + Total(Ranking(job), s.workers) + PhaseRank(s.phase)
  }

  lemma StepsRunOut(job: Job, s: State, step: Step)
    requires job.Valid() && Inv(job, s) && Enabled(job, s, step)
    ensures Measure(job, Apply(job, s, step)) < Measure(job, s)
  {
    hide HonestPart, Retries, IsAccepted, Taken, PartCall, Exclusive, EtagsTrue, Covered, Ordered, Total, BodyFor;
    if Mover(step).Some? {
      TotalMoves(Ranking(job), s.workers, step.w, Apply(job, s, step).workers[step.w]);
    }
  }

  lemma {:induction false} RunsEnd(job: Job, states: seq<State>, steps: seq<Step>, k: nat)
    requires job.Valid() && IsRun(job, states, steps) && k < |states|
    ensures k + Measure(job, states[k]) <= Measure(job, Init(job))
  {
    hide Measure, Apply, Enabled, Init, Inv;
    if k > 0 {
      RunsEnd(job, states, steps, k - 1);
      RunKeepsInv(job, states, steps, k - 1);
      StepsRunOut(job, states[k - 1], steps[k - 1]);
    }
  }

  /** Every run is finite, whatever the interleaving and the retries, and only a finished one cannot go on. */
  lemma EveryRunFinishes(job: Job, states: seq<State>, steps: seq<Step>)
    requires job.Valid() && IsRun(job, states, steps)
    ensures |steps| <= 8 * job.Parts() + 5 * job.threads + 3
    ensures states[|steps|].phase.Finished? || exists step :: Enabled(job, states[|steps|], step)
  {
    TotalOfSame(Ranking(job), Init(job).workers, Fresh);
    assert Measure(job, Init(job)) == 8 * job.Parts() + 5 * job.threads + 3;
    RunsEnd(job, states, steps, |steps|);
    RunKeepsInv(job, states, steps, |steps|);
    hide Measure, IsRun;
    if !states[|steps|].phase.Finished? {
      var step := NeverStuck(job, states[|steps|]);
    }
  }

  lemma NeverStuck(job: Job, s: State) returns (step: Step)
    requires job.Valid() && Inv(job, s) && !s.phase.Finished?
    ensures Enabled(job, s, step)
  {
    hide Exclusive, EtagsTrue, Covered;
    if s.phase.Completing? {
      step := Complete(false, Reply(OtherError, 0, false, 0, [], ""));
    } else if s.phase.Aborting? {
      step := Abort;
    } else if AllReturned(s) {
      step := Join;
    } else {
      var w :| 0 <= w < |s.workers| && !s.workers[w].Returned?;
      match s.workers[w]
      case Fresh => step := Open(w, true);
      case Looping => step := Claim(w);
      case Claimed(_) => step := Check(w);
      case Sending(_, _) => step := Attempt(w, Exchange([], OtherError, 0, ""), false);
      case Accepted(_, _) => step := Keep(w);
      case Failing(_) => step := FailWith(w);
    }
  }

  // --- Success stays possible until something fails ---

  ghost predicate Healthy(s: State) {
    && !s.failed && !s.phase.Aborting? && s.phase != Finished(false)
    && forall w <- s.workers :: !w.Failing?
  }

  // An attempt in which everything works.
  function GoodExchange(len: nat): Exchange {
    Exchange([Ask(len, true, true)], Ok, 200, "e")
  }

  lemma GoodAttempt(job: Job, i: nat, attempt: nat)
    requires job.Valid() && i < job.Parts()
    ensures var call := PartCall(job, i);
      var x := GoodExchange(call.src.len);
      HonestPart(call, x, true) && AfterAttempt(call, i, attempt, x).Accepted?
  {
    hide PartCount, PartEnd;
    PartsTile(job.file, job.partSize, i);
    var call := PartCall(job, i);
    var x := GoodExchange(call.src.len);
    assert x.events[1..] == [];
    assert Attempted(call, x) == START.(sent := call.src.len);
  }

  lemma HealthyStep(job: Job, s: State) returns (step: Step)
    requires job.Valid() && Inv(job, s) && Healthy(s) && !s.phase.Finished?
    ensures Enabled(job, s, step) && Healthy(Apply(job, s, step))
  {
    hide Exclusive, EtagsTrue, Covered, HonestPart, AfterAttempt, PartCall, Taken, BodyFor;
    if s.phase.Completing? {
      step := Complete(true, Reply(Ok, 200, false, 0, [], ""));
    } else if AllReturned(s) {
      step := Join;
    } else {
      var w :| 0 <= w < |s.workers| && !s.workers[w].Returned?;
      assert s.workers[w] in s.workers;
      match s.workers[w]
      case Fresh => step := Open(w, true);
      case Looping => step := Claim(w);
      case Claimed(_) => step := Check(w);
      case Sending(i, attempt) =>
        GoodAttempt(job, i, attempt);
        step := Attempt(w, GoodExchange(PartCall(job, i).src.len), true);
      case Accepted(_, _) => step := Keep(w);
    }
  }

  /** From every reachable state in which nothing has failed the upload can still succeed. */
  lemma {:induction false} CanSucceed(job: Job, s: State) returns (states: seq<State>, steps: seq<Step>)
    requires job.Valid() && Inv(job, s) && Healthy(s)
    ensures |states| == |steps| + 1 && states[0] == s && states[|steps|].phase == Finished(true)
    ensures forall k :: 0 <= k < |steps| ==>
              Enabled(job, states[k], steps[k]) && states[k + 1] == Apply(job, states[k], steps[k])
    decreases Measure(job, s)
  {
    if s.phase.Finished? {
      return [s], [];
    }
    var step := HealthyStep(job, s);
    StepKeepsInv(job, s, step);
    StepsRunOut(job, s, step);
    hide Inv, Apply, Enabled, Healthy, Measure;
    var laterStates, laterSteps := CanSucceed(job, Apply(job, s, step));
    states, steps := [s] + laterStates, [step] + laterSteps;
    forall k | 0 <= k < |steps|
      ensures Enabled(job, states[k], steps[k]) && states[k + 1] == Apply(job, states[k], steps[k])
    {
      if k > 0 {
        assert states[k] == laterStates[k - 1] && steps[k] == laterSteps[k - 1];
      }
    }
  }

  /** So for every file, part size and number of threads there is a run that succeeds. */
  lemma SomeRunSucceeds(job: Job) returns (states: seq<State>, steps: seq<Step>)
    requires job.Valid()
    ensures IsRun(job, states, steps) && states[|steps|].phase == Finished(true)
  {
    InitInv(job);
    states, steps := CanSucceed(job, Init(job));
  }
}
