/** The credential provider: what it caches, and when it walks the chain of sources again. */
module CredentialChain {
  import opened Text

  // Times are in nanoseconds.
  datatype Credentials = Credentials(accessKey: string, secretKey: string, sessionToken: string, expiry: Option<int>)
  {
    predicate Valid() {
      accessKey != "" && secretKey != ""
    }
  }

  const NOTHING := Credentials("", "", "", None)

  const FIVE_MINUTES: int := 300_000_000_000
  const TWO_SECONDS: int := 2_000_000_000

  // One get: when, and what walking the chain would find then. Sources give valid credentials or nothing.
  datatype Call = Call(now: int, found: Option<Credentials>)
  {
    predicate Valid() {
      found.Some? ==> found.value.Valid()
    }
  }

  datatype Memory = Memory(cached: Credentials, attempted: bool, lastAttempt: int)

  const INITIAL := Memory(NOTHING, false, 0)

  predicate Lasting(c: Credentials, now: int) {
    c.Valid() && (c.expiry.None? || now < c.expiry.value - FIVE_MINUTES)
  }

  // Whether a get at `now` walks the chain.
  predicate Due(m: Memory, now: int) {
    if m.cached.Valid() then !Lasting(m.cached, now)
    else !m.attempted || now >= m.lastAttempt + TWO_SECONDS
  }

  function Next(m: Memory, call: Call): Memory {
    if Due(m, call.now) then
      Memory(if call.found.Some? then call.found.value else m.cached, true, call.now)
    else m
  }

  class CredentialProvider {
    var cached: Credentials
    var attempted: bool
    var lastAttempt: int

    function State(): Memory
      reads this
    {
      Memory(cached, attempted, lastAttempt)
    }

    constructor ()
      ensures State() == INITIAL
    {
      cached, attempted, lastAttempt := NOTHING, false, 0;
    }

    method Get(call: Call) returns (c: Credentials, resolved: bool)
      modifies this
      ensures State() == Next(old(State()), call) && c == cached
      ensures resolved <==> Due(old(State()), call.now)
    {
      var now := call.now;
      if cached.Valid() && (cached.expiry.None? || now < cached.expiry.value - FIVE_MINUTES) {
        return cached, false;
      }
      if !cached.Valid() && attempted && now < lastAttempt + TWO_SECONDS {
        return cached, false;
      }
      attempted := true;
      lastAttempt := now;
      if call.found.Some? {
        cached := call.found.value;
      }
      return cached, true;
    }
  }

  // --- Runs ---

  // What the provider remembers after the first k calls.
  function After(calls: seq<Call>, k: nat): Memory
    requires k <= |calls|
  {
    if k == 0 then INITIAL else Next(After(calls, k - 1), calls[k - 1])
  }

  // The k-th call walks the chain.
  predicate Resolved(calls: seq<Call>, k: nat)
    requires k < |calls|
  {
    Due(After(calls, k), calls[k].now)
  }

  predicate IsHistory(calls: seq<Call>) {
    && (forall call <- calls :: call.Valid())
    && (forall i, j :: 0 <= i < j < |calls| ==> calls[i].now <= calls[j].now)
  }

  // What the k-th get returns.
  function Returned(calls: seq<Call>, k: nat): Credentials
    requires k < |calls|
  {
    After(calls, k + 1).cached
  }

  // The k-th get walks the chain and finds credentials.
  predicate Finds(calls: seq<Call>, k: nat)
    requires k < |calls|
  {
    Resolved(calls, k) && calls[k].found.Some?
  }

  /** Over any history, a get returns what the last walk that found something found, whatever was cached
      before; and nothing as long as no walk has found anything. */
  lemma {:induction false} LastFoundIsReturned(calls: seq<Call>, k: nat, i: nat)
    requires i <= k < |calls|
    requires forall j :: i < j <= k ==> !Finds(calls, j)
    ensures Finds(calls, i) ==> Returned(calls, k) == calls[i].found.value
    ensures i == 0 && !Finds(calls, 0) ==> Returned(calls, k) == Credentials("", "", "", None)
    decreases k
  {
    hide Due;
    if i < k {
      LastFoundIsReturned(calls, k - 1, i);
      assert !Finds(calls, k);
    }
  }

  /** Credentials within five minutes of their expiry, or past it, are replaced by what can be found; missing
      ones are, except in the two seconds after a walk. */
  lemma RenewedInTime(calls: seq<Call>, k: nat)
    requires IsHistory(calls) && k < |calls| && calls[k].found.Some?
    ensures var m, now := After(calls, k), calls[k].now;
      if m.cached.accessKey != "" && m.cached.secretKey != "" then
        Returned(calls, k) == if m.cached.expiry.Some? && now >= m.cached.expiry.value - 300_000_000_000
                              then calls[k].found.value else m.cached
      else if m.attempted && now < m.lastAttempt + 2_000_000_000 then Returned(calls, k) == m.cached
      else Returned(calls, k) == calls[k].found.value
  {
  }

  /** Once a get returns valid credentials, every later one does. */
  lemma {:induction false} ValidStaysValid(calls: seq<Call>, i: nat, j: nat)
    requires IsHistory(calls) && i <= j <= |calls|
    requires After(calls, i).cached.Valid()
    ensures After(calls, j).cached.Valid()
    decreases j
  {
    hide Due;
    if i < j {
      ValidStaysValid(calls, i, j - 1);
      assert calls[j - 1].Valid();
    }
  }

  // The last walk is the one remembered.
  lemma {:induction false} AttemptIsRemembered(calls: seq<Call>, i: nat, j: nat)
    requires IsHistory(calls) && i < j <= |calls| && Resolved(calls, i)
    ensures After(calls, j).attempted && After(calls, j).lastAttempt >= calls[i].now
    decreases j
  {
    hide Due;
    if i < j - 1 {
      AttemptIsRemembered(calls, i, j - 1);
    }
  }

  /** Over any history, a walk of the chain happens only when the credentials are missing or within five
      minutes of their expiry: never while static ones, or ones that last longer, are cached. And as long as
      none were found, two walks are at least two seconds apart. */
  lemma WalksAreSpaced(calls: seq<Call>, i: nat, j: nat)
    requires IsHistory(calls) && i < j < |calls| && Resolved(calls, i) && Resolved(calls, j)
    ensures !Lasting(After(calls, j).cached, calls[j].now)
    ensures !After(calls, j).cached.Valid() ==> calls[j].now >= calls[i].now + TWO_SECONDS
  {
    AttemptIsRemembered(calls, i, j);
  }

  /** Between two walks with nothing found, every get in the two seconds after the first is answered from
      memory; so the number of walks is bounded by the time that passes. */
  lemma {:induction false} WalksAreFew(calls: seq<Call>, k: nat)
    requires IsHistory(calls) && 0 < k <= |calls|
    requires !After(calls, k).cached.Valid()
    ensures After(calls, k).attempted
    ensures (Walks(calls, k) - 1) * TWO_SECONDS <= After(calls, k).lastAttempt - calls[0].now
    ensures After(calls, k).lastAttempt <= calls[k - 1].now
  {
    assert calls[k - 1] in calls;
    if k > 1 {
      WalksAreFew(calls, k - 1);
    }
  }

  function Walks(calls: seq<Call>, k: nat): nat
    requires k <= |calls|
  {
    if k == 0 then 0 else Walks(calls, k - 1) + if Resolved(calls, k - 1) then 1 else 0
  }

  // Without a walk, nothing is remembered anew.
  lemma {:induction false} NothingNew(calls: seq<Call>, i: nat, j: nat)
    requires i <= j <= |calls| && forall k :: i <= k < j ==> !Resolved(calls, k)
    ensures After(calls, j) == After(calls, i)
    decreases j
  {
    if i < j {
      NothingNew(calls, i, j - 1);
      assert !Resolved(calls, j - 1);
    }
  }

  /** The two-second pause covers missing credentials only. Within two seconds of a walk the chain is walked
      again exactly when that walk left valid credentials that are within five minutes of their expiry:
      because it found nothing better, or because what it found expires that soon. */
  lemma ExpiringIsRetriedAtOnce(calls: seq<Call>, i: nat, j: nat)
    requires IsHistory(calls) && i < j < |calls| && Resolved(calls, i)
    requires forall k :: i < k < j ==> !Resolved(calls, k)
    requires calls[j].now < calls[i].now + TWO_SECONDS
    ensures var left := After(calls, i + 1).cached;
      Resolved(calls, j) <==> left.Valid() && !Lasting(left, calls[j].now)
  {
    hide Due, After, Credentials.Valid;
    NothingNew(calls, i + 1, j);
    WalkIsRemembered(calls, i);
    DueSoonAfter(After(calls, i + 1), calls[j].now);
  }

  lemma WalkIsRemembered(calls: seq<Call>, i: nat)
    requires i < |calls| && Resolved(calls, i)
    ensures After(calls, i + 1).attempted && After(calls, i + 1).lastAttempt == calls[i].now
  {
    hide Due;
  }

  lemma DueSoonAfter(m: Memory, now: int)
    requires m.attempted && now < m.lastAttempt + TWO_SECONDS
    ensures Due(m, now) <==> m.cached.Valid() && !Lasting(m.cached, now)
  {
  }

  /** A history that shows it: credentials that expire in five minutes, renewed in vain or by others that
      expire as soon, make three gets in one nanosecond walk the chain three times. */
  lemma ThreeWalks(renewed: bool)
    ensures var expiring := Credentials("id", "secret", "", Some(FIVE_MINUTES));
      var renewal := if renewed then Some(expiring) else None;
      var calls := [Call(0, Some(expiring)), Call(0, renewal), Call(1, renewal)];
      && IsHistory(calls) && After(calls, 1).cached.Valid()
      && Resolved(calls, 0) && Resolved(calls, 1) && Resolved(calls, 2)
  {
    var expiring := Credentials("id", "secret", "", Some(FIVE_MINUTES));
    var renewal := if renewed then Some(expiring) else None;
    var calls := [Call(0, Some(expiring)), Call(0, renewal), Call(1, renewal)];
    assert After(calls, 1) == Next(INITIAL, calls[0]) == Memory(expiring, true, 0);
    assert After(calls, 2) == Next(After(calls, 1), calls[1]) == Memory(expiring, true, 0);
  }
}
