/** What becomes of one part of a multipart upload in any interleaving of the workers: it is sent again as long
    as a request for it would be, and the last attempt decides.
 */
module PartRetry {
  import opened Completion
  import opened Http
  import opened Multipart
  import opened Parts
  import opened Requests
  import opened Text

  // How many of the steps from a to b move worker w.
  function Moves(steps: seq<Step>, w: nat, a: nat, b: nat): nat
    requires a <= b <= |steps|
    decreases b - a
  {
    if a == b then 0 else Moves(steps, w, a, b - 1) + if Mover(steps[b - 1]) == Some(w) then 1 else 0
  }

  // From a to b, worker w does nothing but make attempts, and the j-th of them is xs(j).
  ghost predicate Attempts(steps: seq<Step>, w: nat, xs: Exchanges, a: nat, b: nat)
    requires a <= b <= |steps|
  {
    forall k: nat :: a <= k < b && Mover(steps[k]) == Some(w) ==>
                       steps[k].Attempt? && steps[k].x == xs(Moves(steps, w, a, k))
  }

  /** A part is accepted exactly for a complete transfer that ends in a 200 with an ETag. */
  lemma AcceptedExactly(job: Job, i: nat, x: Exchange)
    requires job.Valid() && i < job.Parts()
    ensures var call := PartCall(job, i);
      IsAccepted(ReplyOf(call, x)) <==>
      x.rc == Ok && x.code == 200 && x.etag != "" && !Attempted(call, x).failed && !Attempted(call, x).overflow
  {
    hide Attempted, PartSource;
  }

  // How often part i has been sent.
  function Sends(log: seq<Sent>, i: nat): nat {
    if log == [] then 0 else Sends(log[..|log| - 1], i) + if log[|log| - 1] == PartSent(i) then 1 else 0
  }

  // A worker after n attempts to send part i.
  function AfterAttempts(call: Call, i: nat, xs: Exchanges, n: nat): Worker {
    var last := LastAttempt(call, xs, 0);
    if n <= last then Sending(i, n)
    else if IsAccepted(ReplyOf(call, xs(last))) then Accepted(i, xs(last).etag)
    else Failing(Some(i))
  }

  lemma LastIsFirst(call: Call, xs: Exchanges, k: nat)
    requires k <= LastAttempt(call, xs, 0)
    ensures k < LastAttempt(call, xs, 0) <==> Retries(call, xs(k)) && k < 3
  {
  }

  // Steps of the other threads leave a worker where it is.
  lemma OthersLeaveIt(job: Job, s: State, step: Step, w: nat)
    requires job.Valid() && Enabled(job, s, step) && w < |s.workers| && Mover(step) != Some(w)
    ensures Apply(job, s, step).workers[w] == s.workers[w] && |Apply(job, s, step).workers| == |s.workers|
  {
    hide HonestPart, AfterAttempt, Taken, PartCall;
  }

  lemma AttemptMoves(job: Job, s: State, step: Step)
    requires job.Valid() && Enabled(job, s, step) && step.Attempt?
    ensures |Apply(job, s, step).workers| == |s.workers| && step.w < |s.workers| && s.workers[step.w].Sending?
    ensures var i := s.workers[step.w].i;
      Apply(job, s, step).workers[step.w] ==
      AfterAttempt(PartCall(job, i), i, s.workers[step.w].attempt, step.x)
  {
    hide HonestPart, AfterAttempt, Taken, PartCall;
  }

  lemma ExclusiveIn(job: Job, s: State)
    requires job.Valid() && Inv(job, s)
    ensures Exclusive(s)
  {
  }

  lemma StepSends(job: Job, s: State, step: Step, w: nat, i: nat)
    requires job.Valid() && Enabled(job, s, step) && Exclusive(s)
    requires w < |s.workers| && s.workers[w].Index() == Some(i)
    requires Mover(step) == Some(w) ==> step.Attempt?
    ensures Sends(Apply(job, s, step).log, i) == Sends(s.log, i) + if Mover(step) == Some(w) then 1 else 0
  {
    hide HonestPart, AfterAttempt, Taken, PartCall, BodyFor;
    var t := Apply(job, s, step);
    if t.log != s.log {
      assert t.log[..|t.log| - 1] == s.log;
    }
  }

  /** In every run, a part is sent exactly as often as its request would be: again after each attempt that is
      retried, at most four times. Then its ETag is kept when the last attempt was accepted; otherwise the
      worker reports a failure. */
  lemma {:induction false} PartIsRetried(job: Job, states: seq<State>, steps: seq<Step>, w: nat, i: nat,
                                         xs: Exchanges, a: nat, b: nat)
    requires job.Valid() && IsRun(job, states, steps) && a <= b < |states|
    requires i < job.Parts() && w < |states[a].workers| && states[a].workers[w] == Sending(i, 0)
    requires Attempts(steps, w, xs, a, b)
    ensures Moves(steps, w, a, b) <= LastAttempt(PartCall(job, i), xs, 0) + 1
    ensures w < |states[b].workers|
    ensures states[b].workers[w] == AfterAttempts(PartCall(job, i), i, xs, Moves(steps, w, a, b))
    ensures Sends(states[b].log, i) == Sends(states[a].log, i) + Moves(steps, w, a, b)
    decreases b - a
  {
    hide Apply, Enabled, PartCall, Retries, IsAccepted, ReplyOf, Sends, Inv, Exclusive;
    if a < b {
      PartIsRetried(job, states, steps, w, i, xs, a, b - 1);
      var s, step := states[b - 1], steps[b - 1];
      RunKeepsInv(job, states, steps, b - 1);
      ExclusiveIn(job, s);
      StepSends(job, s, step, w, i);
      if Mover(step) == Some(w) {
        AttemptMoves(job, s, step);
        LastIsFirst(PartCall(job, i), xs, Moves(steps, w, a, b - 1));
      } else {
        OthersLeaveIt(job, s, step, w);
      }
    }
  }

  /** Once a failure is reported, no part is begun: whatever is being sent later was being sent already. */
  lemma {:induction false} FailureStopsParts(job: Job, states: seq<State>, steps: seq<Step>, k: nat, m: nat, w: nat)
    requires job.Valid() && IsRun(job, states, steps) && k <= m < |states| && states[k].failed
    ensures states[m].failed && |states[m].workers| == |states[k].workers|
    ensures w < |states[m].workers| && states[m].workers[w].Sending? ==>
              states[k].workers[w].Sending? && states[k].workers[w].i == states[m].workers[w].i
    decreases m
  {
    hide Apply, Enabled;
    if k < m {
      FailureStopsParts(job, states, steps, k, m - 1, w);
      FailedStep(job, states[m - 1], steps[m - 1], w);
    }
  }

  lemma FailedStep(job: Job, s: State, step: Step, w: nat)
    requires job.Valid() && Enabled(job, s, step) && s.failed
    ensures var t := Apply(job, s, step);
      && t.failed && |t.workers| == |s.workers|
      && (w < |t.workers| && t.workers[w].Sending? ==> s.workers[w].Sending? && s.workers[w].i == t.workers[w].i)
  {
    hide HonestPart, Taken, PartCall, Retries, ReplyOf;
  }

  /** A part whose bytes cannot be read from the file is not sent again: the worker reports a failure. */
  lemma UnreadablePartFails(job: Job, i: nat, attempt: nat, x: Exchange)
    requires job.Valid() && i < job.Parts()
    requires x.events != [] && x.events[0].Ask? && x.events[0].room > 0
    requires !x.events[0].readWorks || !x.events[0].seekWorks
    ensures AfterAttempt(PartCall(job, i), i, attempt, x) == Failing(Some(i))
  {
    var src := PartSource(job, i);
    PartsTile(job.file, job.partSize, i);
    hide PartCount, PartEnd;
    assert src.isFile && src.len > 0;
    assert Broken(src, 0, x.events[0]);
  }

  /** In every run the upload succeeds exactly with a completion answered by a complete 200 whose body does not say
      that it failed; any other outcome of it leads to the abort. */
  lemma CompletionDecides(job: Job, states: seq<State>, steps: seq<Step>, k: nat)
    requires job.Valid() && IsRun(job, states, steps) && k < |steps|
    ensures states[k + 1].phase == Finished(true) && states[k].phase != Finished(true) <==>
            steps[k].Complete? && steps[k].made && steps[k].r.rc == Ok && steps[k].r.code == 200 &&
            !steps[k].r.overflow && forall i :: !OccursAt(AsText(steps[k].r.text), "<Error>", i)
    ensures steps[k].Complete? && states[k + 1].phase != Finished(true) ==> states[k + 1].phase == Aborting
  {
    hide HonestPart, AfterAttempt, Taken, PartCall;
  }
}
