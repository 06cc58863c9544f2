/** When a load of the stream buffer succeeds, told from the replies alone: passing troubles are waited out,
    and the first reply that names another region is followed there.
 */
module Retargeting {
  import opened Http
  import opened Reader
  import opened Text

  predicate InPassing(r: Reply) { Passing(r.rc, r.code) }

  // The server of `here` says that the bucket is in the region `there`.
  predicate Elsewhere(r: Reply, here: string, there: string) {
    r.rc == Ok && (r.code == 301 || r.code == 307 || r.code == 400) && r.regionHeader == there && there != "" &&
    there != here
  }

  function ReplyAt(buf: S3Streambuf, start: nat, k: nat, region: string): Reply
    requires buf.readAhead > 0
  {
    buf.serve(k, buf.RequestIn(region, start))
  }

  // From the k-th request on, n requests to the region fail in passing.
  ghost predicate Trouble(buf: S3Streambuf, start: nat, k: nat, region: string, n: nat)
    requires buf.readAhead > 0
  {
    forall j: nat :: k <= j < k + n ==> InPassing(ReplyAt(buf, start, j, region))
  }

  /** How a load gets its answer: after `n` passing failures; or after `n` of them the bucket turns out to be
      in the region `moved`, and after `more` of them the answer comes from there. */
  ghost predicate Reaches(buf: S3Streambuf, start: nat, n: nat, moved: Option<string>, more: nat)
    requires buf.readAhead > 0
    reads buf`sent, buf`region
  {
    && n + more < buf.cfg.maxAttempts
    && Trouble(buf, start, buf.sent, buf.region, n)
    && match moved
       case None =>
         more == 0 && Answers(ReplyAt(buf, start, buf.sent + n, buf.region))
       case Some(other) =>
         && !buf.cfg.pathStyle && Elsewhere(ReplyAt(buf, start, buf.sent + n, buf.region), buf.region, other)
         && Trouble(buf, start, buf.sent + n + 1, other, more)
         && Answers(ReplyAt(buf, start, buf.sent + n + 1 + more, other))
  }

  lemma Kinds(buf: S3Streambuf, r: Reply, here: string)
    ensures InPassing(r) <==> buf.Retriable(r)
    ensures buf.Redirects(r, here) <==> !buf.cfg.pathStyle && Elsewhere(r, here, r.regionHeader)
    ensures InPassing(r) ==> !Answers(r) && !buf.Redirects(r, here)
    ensures buf.Redirects(r, here) ==> !Answers(r)
  {
  }

  lemma {:induction false} WaitsOut(buf: S3Streambuf, start: nat, k: nat, region: string, redirected: bool,
                                   attempt: nat, n: nat)
    requires buf.readAhead > 0 && attempt + n < buf.cfg.maxAttempts && Trouble(buf, start, k, region, n)
    ensures buf.Deciding(start, k, region, redirected, attempt) ==
            buf.Deciding(start, k + n, region, redirected, attempt + n)
    decreases n
  {
    hide InPassing, Elsewhere, Answers, S3Streambuf.Deciding;
    if n > 0 {
      var r := ReplyAt(buf, start, k, region);
      assert InPassing(r);
      Kinds(buf, r, region);
      buf.DecidingStep(start, k, region, redirected, attempt);
      WaitsOut(buf, start, k + 1, region, redirected, attempt + 1, n - 1);
    }
  }

  /** A plan that reaches an answer is carried out: the load succeeds, with one request for each reply of
      the plan, and the stream is left in the region that answered. */
  lemma PlanIsCarriedOut(buf: S3Streambuf, start: nat, n: nat, moved: Option<string>, more: nat)
    requires buf.readAhead > 0 && buf.cfg.maxAttempts > 0 && Reaches(buf, start, n, moved, more)
    ensures var d := buf.Decided(start);
      && Answers(d.reply) && d.reply == ReplyAt(buf, start, d.k, d.region)
      && (moved.None? ==> d.k == buf.sent + n && d.region == buf.region)
      && (moved.Some? ==> d.k == buf.sent + n + 1 + more && d.region == moved.value)
  {
    hide InPassing, Elsewhere, Answers, S3Streambuf.Deciding;
    var k, here := buf.sent + n, buf.region;
    WaitsOut(buf, start, buf.sent, here, false, 0, n);
    Kinds(buf, ReplyAt(buf, start, k, here), here);
    buf.DecidingStep(start, k, here, false, n);
    if moved.Some? {
      var other := moved.value;
      assert ReplyAt(buf, start, k, here).regionHeader == other by { Named(ReplyAt(buf, start, k, here), here, other); }
      WaitsOut(buf, start, k + 1, other, true, n, more);
      buf.DecidingStep(start, k + 1 + more, other, true, n + more);
    }
  }

  lemma Named(r: Reply, here: string, there: string)
    requires Elsewhere(r, here, there)
    ensures r.regionHeader == there
  {
  }

  lemma {:induction false} AnswerAfterMove(buf: S3Streambuf, start: nat, k: nat, region: string, attempt: nat)
    returns (n: nat)
    requires buf.readAhead > 0 && attempt < buf.cfg.maxAttempts
    requires Answers(buf.Deciding(start, k, region, true, attempt).reply)
    ensures attempt + n < buf.cfg.maxAttempts && Trouble(buf, start, k, region, n)
    ensures Answers(ReplyAt(buf, start, k + n, region))
    decreases buf.cfg.maxAttempts - attempt
  {
    hide InPassing, Elsewhere, Answers, S3Streambuf.Deciding;
    var r := ReplyAt(buf, start, k, region);
    Kinds(buf, r, region);
    buf.DecidingStep(start, k, region, true, attempt);
    if Answers(r) {
      n := 0;
    } else {
      n := AnswerAfterMove(buf, start, k + 1, region, attempt + 1);
      n := n + 1;
    }
  }

  lemma {:induction false} PlanOfAnswer(buf: S3Streambuf, start: nat, n: nat)
    returns (m: nat, moved: Option<string>, more: nat)
    requires buf.readAhead > 0 && n < buf.cfg.maxAttempts && Trouble(buf, start, buf.sent, buf.region, n)
    requires Answers(buf.Deciding(start, buf.sent + n, buf.region, false, n).reply)
    ensures Reaches(buf, start, m, moved, more)
    decreases buf.cfg.maxAttempts - n
  {
    hide InPassing, Elsewhere, Answers, S3Streambuf.Deciding;
    var k, here := buf.sent + n, buf.region;
    var r := ReplyAt(buf, start, k, here);
    Kinds(buf, r, here);
    buf.DecidingStep(start, k, here, false, n);
    if Answers(r) {
      m, moved, more := n, None, 0;
    } else if buf.Redirects(r, here) {
      more := AnswerAfterMove(buf, start, k + 1, r.regionHeader, n);
      m, moved := n, Some(r.regionHeader);
    } else {
      m, moved, more := PlanOfAnswer(buf, start, n + 1);
    }
  }

  /** A load with credentials that the disk cache does not serve succeeds exactly when the replies let it
      reach an answer. */
  lemma SucceedsExactly(buf: S3Streambuf, target: nat)
    requires buf.readAhead > 0 && buf.cfg.maxAttempts > 0
    requires buf.curl && buf.credentials(buf.loads + 1) && !buf.OnDisk(buf.StartFor(target))
    ensures buf.Succeeds(target) <==>
            exists n: nat, moved: Option<string>, more: nat :: Reaches(buf, buf.StartFor(target), n, moved, more)
  {
    hide Reaches, Answers, S3Streambuf.Deciding, S3Streambuf.OnDisk, S3Streambuf.StartFor;
    var start := buf.StartFor(target);
    if buf.Succeeds(target) {
      var n, moved, more := PlanOfAnswer(buf, start, 0);
    }
    if n: nat, moved: Option<string>, more: nat :| Reaches(buf, start, n, moved, more) {
      PlanIsCarriedOut(buf, start, n, moved, more);
    }
  }

  /** A first reply that names another region fails the load of a path-style stream after one request. A
      second reply that does fails the load of any stream. */
  lemma MovesAtMostOnce(buf: S3Streambuf, start: nat, there: string, on: string)
    requires buf.readAhead > 0 && buf.cfg.maxAttempts > 0
    requires Elsewhere(ReplyAt(buf, start, buf.sent, buf.region), buf.region, there)
    ensures buf.cfg.pathStyle ==>
              !Answers(buf.Decided(start).reply) && buf.Decided(start).k == buf.sent &&
              buf.Decided(start).region == buf.region &&
              ErrorOf(buf.Decided(start).reply) == BadStatus(ReplyAt(buf, start, buf.sent, buf.region).code)
    ensures !buf.cfg.pathStyle && Elsewhere(ReplyAt(buf, start, buf.sent + 1, there), there, on) ==>
              !Answers(buf.Decided(start).reply) && buf.Decided(start).k == buf.sent + 1 &&
              buf.Decided(start).region == there
  {
    var first, second := ReplyAt(buf, start, buf.sent, buf.region), ReplyAt(buf, start, buf.sent + 1, there);
    buf.DecidingStep(start, buf.sent, buf.region, false, 0);
    buf.DecidingStep(start, buf.sent + 1, there, true, 0);
    Final(buf, first);
    if Elsewhere(second, there, on) {
      Final(buf, second);
    }
  }

  lemma Final(buf: S3Streambuf, r: Reply)
    requires r.rc == Ok && (r.code == 301 || r.code == 307 || r.code == 400)
    ensures !Answers(r) && !buf.Retriable(r)
  {
  }

  /** Passing failures are waited out as often as configured, and no longer. */
  lemma GivesUp(buf: S3Streambuf, start: nat)
    requires buf.readAhead > 0 && buf.cfg.maxAttempts > 0
    requires Trouble(buf, start, buf.sent, buf.region, buf.cfg.maxAttempts)
    ensures var d := buf.Decided(start);
      && !Answers(d.reply) && d.k == buf.sent + buf.cfg.maxAttempts - 1 && d.region == buf.region
      && d.reply == ReplyAt(buf, start, d.k, buf.region)
      && (d.reply.rc != Ok ==> ErrorOf(d.reply) == Transport(d.reply.rc))
  {
    hide InPassing, Elsewhere, Answers, S3Streambuf.Deciding;
    var n, here := buf.cfg.maxAttempts - 1, buf.region;
    WaitsOut(buf, start, buf.sent, here, false, 0, n);
    var r := ReplyAt(buf, start, buf.sent + n, here);
    assert InPassing(r);
    Kinds(buf, r, here);
    buf.DecidingStep(start, buf.sent + n, here, false, n);
  }
}
