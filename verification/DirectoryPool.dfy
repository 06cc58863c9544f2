/** Uploading a directory: the items largest first, and worker threads that take them from a shared counter
    and report each under a lock. Every interleaving is a run.
 */
module DirectoryPool {
  import opened Text
  import opened Totals

  datatype Item = Item(path: string, size: nat)

  // --- Largest first, equal sizes in the order listed ---

  predicate NonIncreasing(items: seq<Item>) {
    forall i, j :: 0 <= i < j < |items| ==> items[i].size >= items[j].size
  }

  function OfSize(items: seq<Item>, size: nat): seq<Item> {
    if items == [] then []
    else (if items[0].size == size then [items[0]] else []) + OfSize(items[1..], size)
  }

  // What std::stable_sort promises.
  ghost predicate IsStableSort(items: seq<Item>, sorted: seq<Item>) {
    NonIncreasing(sorted) && forall size :: OfSize(sorted, size) == OfSize(items, size)
  }

  function Insert(item: Item, sorted: seq<Item>): seq<Item> {
    if sorted == [] || item.size >= sorted[0].size then [item] + sorted
    else [sorted[0]] + Insert(item, sorted[1..])
  }

  function LargestFirst(items: seq<Item>): seq<Item> {
    if items == [] then [] else Insert(items[0], LargestFirst(items[1..]))
  }

  lemma {:induction false} InsertMembers(item: Item, sorted: seq<Item>)
    ensures multiset(Insert(item, sorted)) == multiset(sorted) + multiset{item}
  {
    if !(sorted == [] || item.size >= sorted[0].size) {
      InsertMembers(item, sorted[1..]);
      assert sorted == [sorted[0]] + sorted[1..];
    }
  }

  lemma {:induction false} InsertSorted(item: Item, sorted: seq<Item>)
    requires NonIncreasing(sorted)
    ensures NonIncreasing(Insert(item, sorted))
  {
    if !(sorted == [] || item.size >= sorted[0].size) {
      InsertSorted(item, sorted[1..]);
      InsertHolds(item, sorted[1..]);
      LargestInFront(sorted[0], Insert(item, sorted[1..]));
    }
  }

  lemma {:induction false} InsertHolds(item: Item, sorted: seq<Item>)
    ensures forall x <- Insert(item, sorted) :: x == item || x in sorted
  {
    if !(sorted == [] || item.size >= sorted[0].size) {
      InsertHolds(item, sorted[1..]);
    }
  }

  lemma LargestInFront(first: Item, rest: seq<Item>)
    requires NonIncreasing(rest) && forall x <- rest :: x.size <= first.size
    ensures NonIncreasing([first] + rest)
  {
  }

  // Among equals, the item goes to the front.
  lemma {:induction false} InsertClasses(item: Item, sorted: seq<Item>, size: nat)
    requires NonIncreasing(sorted)
    ensures OfSize(Insert(item, sorted), size) == (if item.size == size then [item] else []) + OfSize(sorted, size)
  {
    var r := Insert(item, sorted);
    OfSizeHead(r, size);
    if sorted == [] || item.size >= sorted[0].size {
      assert r[1..] == sorted;
    } else {
      hide OfSize;
      OfSizeHead(sorted, size);
      InsertClasses(item, sorted[1..], size);
      assert r[1..] == Insert(item, sorted[1..]);
    }
  }

  lemma OfSizeHead(items: seq<Item>, size: nat)
    requires items != []
    ensures OfSize(items, size) == (if items[0].size == size then [items[0]] else []) + OfSize(items[1..], size)
  {
  }

  /** The order of the uploads: a permutation of the listing, largest first, stable. */
  lemma {:induction false} LargestFirstIsStableSort(items: seq<Item>)
    ensures IsStableSort(items, LargestFirst(items))
    ensures multiset(LargestFirst(items)) == multiset(items)
  {
    if items != [] {
      var rest := LargestFirst(items[1..]);
      LargestFirstIsStableSort(items[1..]);
      forall size: nat
        ensures OfSize(Insert(items[0], rest), size) == OfSize(items, size)
      {
        InsertClasses(items[0], rest, size);
      }
      InsertSorted(items[0], rest);
      InsertMembers(items[0], rest);
      assert items == [items[0]] + items[1..];
    }
  }

  /** And the only one. */
  lemma {:induction false} StableSortIsUnique(items: seq<Item>, a: seq<Item>, b: seq<Item>)
    requires IsStableSort(items, a) && IsStableSort(items, b)
    ensures a == b
  {
    SameClasses(a, b);
  }

  lemma {:induction false} SameClasses(a: seq<Item>, b: seq<Item>)
    requires NonIncreasing(a) && NonIncreasing(b)
    requires forall size: nat :: OfSize(a, size) == OfSize(b, size)
    ensures a == b
    decreases |a|
  {
    NonEmptyTogether(a, b);
    NonEmptyTogether(b, a);
    if a != [] {
      HeadIsLargest(a, b);
      HeadIsLargest(b, a);
      assert a[0].size == b[0].size;
      var size := a[0].size;
      assert OfSize(a, size)[0] == OfSize(b, size)[0];
      forall s: nat
        ensures OfSize(a[1..], s) == OfSize(b[1..], s)
      {
        OfSizeHead(a, s);
        OfSizeHead(b, s);
        assert OfSize(a, s) == OfSize(b, s);
        if s == size {
          assert OfSize(a, s)[1..] == OfSize(a[1..], s) && OfSize(b, s)[1..] == OfSize(b[1..], s);
        } else {
          assert OfSize(a, s) == OfSize(a[1..], s) && OfSize(b, s) == OfSize(b[1..], s);
        }
      }
      SameClasses(a[1..], b[1..]);
    }
  }

  lemma NonEmptyTogether(a: seq<Item>, b: seq<Item>)
    requires forall size: nat :: OfSize(a, size) == OfSize(b, size)
    ensures a != [] ==> b != []
  {
    if a != [] {
      assert OfSize(b, a[0].size) != [];
    }
  }

  // A size present in one is present in the other.
  lemma HeadIsLargest(a: seq<Item>, b: seq<Item>)
    requires a != [] && b != [] && NonIncreasing(b)
    requires forall size: nat :: OfSize(a, size) == OfSize(b, size)
    ensures a[0].size <= b[0].size
  {
    var size := a[0].size;
    assert OfSize(b, size) == OfSize(a, size) != [];
    Present(b, size);
  }

  lemma {:induction false} Present(b: seq<Item>, size: nat)
    requires OfSize(b, size) != []
    ensures exists i :: 0 <= i < |b| && b[i].size == size
  {
    if b[0].size != size {
      Present(b[1..], size);
      var i :| 0 <= i < |b[1..]| && b[1..][i].size == size;
      assert b[i + 1].size == size;
    }
  }

  // --- The workers ---

  datatype Worker =
    | Looping                      // about to take an index
    | Claimed(i: nat)              // about to check it
    | Uploading(i: nat)            // about to call put_file
    | Reporting(i: nat, ok: bool)  // about to take the lock and report
    | Returned
  {
    function Index(): Option<nat> {
      match this
      case Claimed(i) => Some(i)
      case Uploading(i) => Some(i)
      case Reporting(i, _) => Some(i)
      case Looping => None
      case Returned => None
    }
  }

  datatype Report = Report(i: nat, ok: bool)

  datatype Stats = Stats(files: nat, failed: nat, bytes: nat)

  // `claims` lists the indices taken from the counter, `attempts` the put_file calls and `reports` the on_file
  // calls, in order.
  datatype State = State(
    next: nat, workers: seq<Worker>, stats: Stats, claims: seq<nat>, attempts: seq<nat>, reports: seq<Report>,
    result: Option<bool>)

  function Init(threads: nat): State {
    State(0, seq(threads, _ => Looping), Stats(0, 0, 0), [], [], [], None)
  }

  datatype Step = Claim(w: nat) | Check(w: nat) | Upload(w: nat, ok: bool) | Tell(w: nat) | Finish

  predicate Enabled(items: seq<Item>, s: State, step: Step) {
    match step
    case Claim(w) => w < |s.workers| && s.workers[w].Looping?
    case Check(w) => w < |s.workers| && s.workers[w].Claimed?
    case Upload(w, _) => w < |s.workers| && s.workers[w].Uploading?
    case Tell(w) => w < |s.workers| && s.workers[w].Reporting? && s.workers[w].i < |items|
    case Finish => s.result.None? && forall w <- s.workers :: w.Returned?
  }

  function Apply(items: seq<Item>, s: State, step: Step): State
    requires Enabled(items, s, step)
  {
    match step
    case Claim(w) =>
      s.(workers := s.workers[w := Claimed(s.next)], next := s.next + 1, claims := s.claims + [s.next])
    case Check(w) =>
      var i := s.workers[w].i;
      s.(workers := s.workers[w := if i >= |items| then Returned else Uploading(i)])
    case Upload(w, ok) =>
      var i := s.workers[w].i;
      s.(workers := s.workers[w := Reporting(i, ok)], attempts := s.attempts + [i])
    case Tell(w) =>
      var Reporting(i, ok) := s.workers[w];
      var stats := if ok then s.stats.(files := s.stats.files + 1, bytes := s.stats.bytes + items[i].size)
                   else s.stats.(failed := s.stats.failed + 1);
      s.(workers := s.workers[w := Looping], stats := stats, reports := s.reports + [Report(i, ok)])
    case Finish => s.(result := Some(s.stats.failed == 0))
  }

  // --- The invariant ---

  ghost predicate Shape(items: seq<Item>, s: State) {
    forall w :: 0 <= w < |s.workers| ==>
      && (s.workers[w].Index().Some? ==> s.workers[w].Index().value < s.next)
      && (s.workers[w].Uploading? || s.workers[w].Reporting? ==> s.workers[w].i < |items|)
      && (s.workers[w].Returned? ==> s.next > |items|)
  }

  ghost predicate Exclusive(s: State) {
    forall v, w :: 0 <= v < w < |s.workers| && s.workers[v].Index().Some? ==>
                     s.workers[v].Index() != s.workers[w].Index()
  }

  ghost predicate InFlight(s: State, i: nat) {
    exists w :: 0 <= w < |s.workers| && s.workers[w].Index() == Some(i)
  }

  predicate Reported(s: State, i: nat) {
    Report(i, true) in s.reports || Report(i, false) in s.reports
  }

  // A report is of an item taken, and the last thing said about it.
  ghost predicate ReportsFinal(items: seq<Item>, s: State) {
    && (forall r <- s.reports :: r.i < |items| && r.i < s.next && !InFlight(s, r.i))
    && (forall a, b :: 0 <= a < b < |s.reports| ==> s.reports[a].i != s.reports[b].i)
  }

  ghost predicate Covered(items: seq<Item>, s: State) {
    forall i :: 0 <= i < |items| && i < s.next ==> Reported(s, i) || InFlight(s, i)
  }

  // The items attempted are those reported and those about to be.
  ghost predicate AttemptsMatch(s: State) {
    && (forall a, b :: 0 <= a < b < |s.attempts| ==> s.attempts[a] != s.attempts[b])
    && (forall i :: i in s.attempts <==> Reported(s, i) || ToReport(s, i))
  }

  ghost predicate ToReport(s: State, i: nat) {
    exists w :: 0 <= w < |s.workers| && s.workers[w].Reporting? && s.workers[w].i == i
  }

  // The counter hands out 0, 1, 2, ...
  predicate ClaimsCount(s: State) {
    |s.claims| == s.next && forall k :: 0 <= k < s.next ==> s.claims[k] == k
  }

  // What the reports say of the first n items.
  function Counted(items: seq<Item>, reports: seq<Report>, n: nat): Stats
    requires n <= |items|
  {
    if n == 0 then Stats(0, 0, 0)
    else
      var c := Counted(items, reports, n - 1);
      Stats(c.files + if Report(n - 1, true) in reports then 1 else 0,
            c.failed + if Report(n - 1, false) in reports then 1 else 0,
            c.bytes + if Report(n - 1, true) in reports then items[n - 1].size else 0)
  }

  ghost predicate Inv(items: seq<Item>, s: State) {
    && s.workers != [] && ClaimsCount(s)
    && Shape(items, s) && Exclusive(s) && ReportsFinal(items, s) && Covered(items, s) && AttemptsMatch(s)
    && s.stats == Counted(items, s.reports, |items|)
    && (s.result.Some? ==> s.result.value == (s.stats.failed == 0) && forall w <- s.workers :: w.Returned?)
  }

  lemma {:induction false} NothingCounted(items: seq<Item>, n: nat)
    requires n <= |items|
    ensures Counted(items, [], n) == Stats(0, 0, 0)
  {
    if n > 0 {
      NothingCounted(items, n - 1);
    }
  }

  lemma InitInv(items: seq<Item>, threads: nat)
    requires threads > 0
    ensures Inv(items, Init(threads))
  {
    NothingCounted(items, |items|);
  }

  // One more report counts its item once.
  lemma {:induction false} CountOnce(items: seq<Item>, reports: seq<Report>, r: Report, n: nat)
    requires n <= |items|
    requires Report(r.i, true) !in reports && Report(r.i, false) !in reports
    ensures var c, d := Counted(items, reports, n), Counted(items, reports + [r], n);
      d == if r.i >= n then c
           else if r.ok then c.(files := c.files + 1, bytes := c.bytes + items[r.i].size)
           else c.(failed := c.failed + 1)
  {
    if n > 0 {
      CountOnce(items, reports, r, n - 1);
    }
  }

  lemma ShapeKept(items: seq<Item>, s: State, step: Step)
    requires Inv(items, s) && Enabled(items, s, step)
    ensures Shape(items, Apply(items, s, step)) && Exclusive(Apply(items, s, step))
  {
    hide ReportsFinal, Covered, AttemptsMatch, Counted;
  }

  lemma ReportsKept(items: seq<Item>, s: State, step: Step)
    requires Inv(items, s) && Enabled(items, s, step)
    ensures ReportsFinal(items, Apply(items, s, step))
  {
    hide Covered, AttemptsMatch, Counted;
  }

  lemma CoveredKept(items: seq<Item>, s: State, step: Step)
    requires Inv(items, s) && Enabled(items, s, step)
    ensures Covered(items, Apply(items, s, step))
  {
    hide ReportsFinal, AttemptsMatch, Counted, Exclusive;
    var t := Apply(items, s, step);
    forall i | 0 <= i < |items| && i < t.next
      ensures Reported(t, i) || InFlight(t, i)
    {
      if i == s.next {
        assert t.workers[step.w].Index() == Some(i);
      } else if !Reported(s, i) {
        assert InFlight(s, i);
        var v :| 0 <= v < |s.workers| && s.workers[v].Index() == Some(i);
        if step.Tell? && step.w == v {
          assert Report(i, s.workers[v].ok) in t.reports;
        } else {
          assert t.workers[v].Index() == Some(i);
        }
      }
    }
  }

  lemma AttemptsKept(items: seq<Item>, s: State, step: Step)
    requires Inv(items, s) && Enabled(items, s, step)
    ensures AttemptsMatch(Apply(items, s, step))
  {
    hide Covered, Counted, ReportsFinal;
    var t := Apply(items, s, step);
    if step.Upload? {
      NotYetAttempted(items, s, step.w);
    }
    forall i
      ensures i in t.attempts <==> Reported(t, i) || ToReport(t, i)
    {
      ToReportMoves(items, s, step, i);
    }
  }

  lemma NotYetAttempted(items: seq<Item>, s: State, w: nat)
    requires Inv(items, s) && w < |s.workers| && s.workers[w].Uploading?
    ensures s.workers[w].i !in s.attempts
  {
    hide Covered, Counted;
    var i := s.workers[w].i;
    assert InFlight(s, i);
    assert !ToReport(s, i);
  }

  // Only an upload makes an item one to report, and only its report ends that.
  lemma ToReportMoves(items: seq<Item>, s: State, step: Step, i: nat)
    requires Inv(items, s) && Enabled(items, s, step)
    ensures ToReport(Apply(items, s, step), i) <==>
              (step.Upload? && s.workers[step.w].i == i) ||
              (ToReport(s, i) && !(step.Tell? && s.workers[step.w].i == i))
  {
    hide Covered, Counted, ReportsFinal, AttemptsMatch;
    var t := Apply(items, s, step);
    if step.Upload? && s.workers[step.w].i == i {
      assert t.workers[step.w].Reporting?;
    }
    if ToReport(s, i) {
      var w :| 0 <= w < |s.workers| && s.workers[w].Reporting? && s.workers[w].i == i;
      if !step.Finish? && step.w != w {
        assert t.workers[w].Reporting? && t.workers[w].i == i;
        assert s.workers[w].Index() == Some(i);
      }
    }
    if ToReport(t, i) {
      var w :| 0 <= w < |t.workers| && t.workers[w].Reporting? && t.workers[w].i == i;
      if step.Finish? || step.w != w {
        assert s.workers[w].Reporting? && s.workers[w].Index() == Some(i);
      }
    }
  }

  lemma CountsKept(items: seq<Item>, s: State, step: Step)
    requires Inv(items, s) && Enabled(items, s, step)
    ensures Apply(items, s, step).stats == Counted(items, Apply(items, s, step).reports, |items|)
  {
    hide Covered, AttemptsMatch, Exclusive, Counted;
    if step.Tell? {
      var i := s.workers[step.w].i;
      assert InFlight(s, i);
      CountOnce(items, s.reports, Report(i, s.workers[step.w].ok), |items|);
    }
  }

  lemma StepKeepsInv(items: seq<Item>, s: State, step: Step)
    requires Inv(items, s) && Enabled(items, s, step)
    ensures Inv(items, Apply(items, s, step))
  {
    ShapeKept(items, s, step);
    ReportsKept(items, s, step);
    CoveredKept(items, s, step);
    AttemptsKept(items, s, step);
    CountsKept(items, s, step);
    hide Shape, Exclusive, ReportsFinal, Covered, AttemptsMatch, Counted;
    if !step.Finish? {
      assert s.workers[step.w] in s.workers;
    }
  }

  // --- Whole runs ---

  ghost predicate IsRun(items: seq<Item>, threads: nat, states: seq<State>, steps: seq<Step>) {
    && |states| == |steps| + 1 && states[0] == Init(threads)
    && forall k :: 0 <= k < |steps| ==>
         Enabled(items, states[k], steps[k]) && states[k + 1] == Apply(items, states[k], steps[k])
  }

  lemma {:induction false} RunKeepsInv(items: seq<Item>, threads: nat, states: seq<State>, steps: seq<Step>, k: nat)
    requires threads > 0 && IsRun(items, threads, states, steps) && k < |states|
    ensures Inv(items, states[k])
  {
    hide Inv, Apply, Enabled, Init, Shape;
    if k == 0 {
      InitInv(items, threads);
    } else {
      RunKeepsInv(items, threads, states, steps, k - 1);
      StepKeepsInv(items, states[k - 1], steps[k - 1]);
    }
  }

  ghost predicate OnceEach(indices: seq<nat>, n: nat) {
    && (forall a, b :: 0 <= a < b < |indices| ==> indices[a] != indices[b])
    && (forall i: nat :: i in indices <==> i < n)
  }

  function Indices(reports: seq<Report>): seq<nat> {
    seq(|reports|, k requires 0 <= k < |reports| => reports[k].i)
  }

  // The sizes of the items that were uploaded.
  function BytesUploaded(items: seq<Item>, ok: set<nat>): nat {
    if items == [] then 0
    else BytesUploaded(items[..|items| - 1], ok) + if |items| - 1 in ok then items[|items| - 1].size else 0
  }

  function Succeeded(reports: seq<Report>): set<nat> {
    set r | r in reports && r.ok :: r.i
  }

  function Failures(reports: seq<Report>): set<nat> {
    set r | r in reports && !r.ok :: r.i
  }

  lemma {:induction false} CountsAddUp(items: seq<Item>, reports: seq<Report>, n: nat)
    requires n <= |items|
    requires forall i :: 0 <= i < n ==> (Report(i, true) in reports) != (Report(i, false) in reports)
    ensures var c := Counted(items, reports, n);
      && c.files + c.failed == n && c.bytes == BytesUploaded(items[..n], Succeeded(reports))
      && (c.failed == 0 <==> forall i :: 0 <= i < n ==> Report(i, true) in reports)
  {
    if n > 0 {
      CountsAddUp(items, reports, n - 1);
      assert items[..n][..n - 1] == items[..n - 1];
      assert n - 1 in Succeeded(reports) <==> Report(n - 1, true) in reports;
    }
  }

  // The items of a list of indices.
  function TakenInOrder(items: seq<Item>, claims: seq<nat>): seq<Item>
    requires forall k :: 0 <= k < |claims| ==> claims[k] < |items|
  {
    seq(|claims|, k requires 0 <= k < |claims| => items[claims[k]])
  }

  /** At every moment the items claimed so far, in the order of their claims, are the first ones of the sorted
      listing, so their sizes do not increase. */
  lemma ClaimsAreLargestFirst(listing: seq<Item>, threads: nat, states: seq<State>, steps: seq<Step>, k: nat)
    requires threads > 0 && IsRun(LargestFirst(listing), threads, states, steps) && k < |states|
    ensures var claims, items := states[k].claims, LargestFirst(listing);
      var n := if |claims| < |items| then |claims| else |items|;
      && (forall j :: 0 <= j < n ==> claims[j] < |items|)
      && TakenInOrder(items, claims[..n]) == items[..n] && NonIncreasing(items[..n])
  {
    RunKeepsInv(LargestFirst(listing), threads, states, steps, k);
    LargestFirstIsStableSort(listing);
    hide Shape, Exclusive, ReportsFinal, Covered, AttemptsMatch, Counted, IsRun, LargestFirst, OfSize;
  }

  /** The uploads themselves can start in another order: with two threads, the smaller of two items first. */
  lemma SmallerStartsFirst(large: Item, small: Item) returns (states: seq<State>, steps: seq<Step>)
    requires large.size > small.size
    ensures LargestFirst([small, large]) == [large, small]
    ensures IsRun([large, small], 2, states, steps) && states[|steps|].attempts == [1, 0]
  {
    var items := [large, small];
    assert [small, large][1..] == [large] && [large][1..] == [];
    assert LargestFirst([large]) == Insert(large, []) == [large];
    assert Insert(small, [large]) == [large] + Insert(small, []) == items;
    var s0 := Init(2);
    var s1 := Apply(items, s0, Claim(0));
    var s2 := Apply(items, s1, Claim(1));
    var s3 := Apply(items, s2, Check(0));
    var s4 := Apply(items, s3, Check(1));
    var s5 := Apply(items, s4, Upload(1, true));
    var s6 := Apply(items, s5, Upload(0, true));
    states := [s0, s1, s2, s3, s4, s5, s6];
    steps := [Claim(0), Claim(1), Check(0), Check(1), Upload(1, true), Upload(0, true)];
  }

  /** Whatever the interleaving: when the call returns, every item of the listing was uploaded once and reported
      once, and the items were taken largest first; the files and the failures add up to the items; the
      bytes are those of the items uploaded; and the call fails exactly when some item did. */
  lemma EveryItemOnce(listing: seq<Item>, threads: nat, states: seq<State>, steps: seq<Step>, k: nat)
    requires threads > 0 && IsRun(LargestFirst(listing), threads, states, steps) && k < |states|
    requires states[k].result.Some?
    ensures var s, items := states[k], LargestFirst(listing);
      && multiset(items) == multiset(listing) && IsStableSort(listing, items)
      && |listing| <= |s.claims| && (forall j :: 0 <= j < |listing| ==> s.claims[j] < |items|)
      && TakenInOrder(items, s.claims[..|listing|]) == items
      && OnceEach(s.attempts, |items|) && OnceEach(Indices(s.reports), |items|)
      && s.stats.files + s.stats.failed == |listing|
      && s.stats.bytes == BytesUploaded(items, Succeeded(s.reports))
      && (s.result.value <==> Failures(s.reports) == {})
  {
    var s, items := states[k], LargestFirst(listing);
    RunKeepsInv(items, threads, states, steps, k);
    hide IsRun, Shape, Exclusive, Covered, ReportsFinal, AttemptsMatch, Counted, OnceEach, Indices, Succeeded, Failures;
    hide LargestFirst, IsStableSort;
    LargestFirstIsStableSort(listing);
    assert |multiset(items)| == |items| && |multiset(listing)| == |listing|;
    ClaimsAreLargestFirst(listing, threads, states, steps, k);
    AllReported(items, s);
    CountsAddUp(items, s.reports, |items|);
    assert items[..|items|] == items;
    ReportedOnce(items, s);
    NoFailures(s.reports, |items|);
  }

  // No item failed exactly when every one was uploaded.
  lemma NoFailures(reports: seq<Report>, n: nat)
    requires forall i: nat :: i < n ==> (Report(i, true) in reports) != (Report(i, false) in reports)
    requires forall r <- reports :: r.i < n
    ensures Failures(reports) == {} <==> forall i: nat :: i < n ==> Report(i, true) in reports
  {
    forall i: nat
      ensures i in Failures(reports) <==> Report(i, false) in reports
    {
    }
    if Failures(reports) != {} {
      var i :| i in Failures(reports);
      assert i < n && Report(i, true) !in reports;
    } else {
      forall i: nat | i < n
        ensures Report(i, true) in reports
      {
        assert i !in Failures(reports);
      }
    }
  }

  lemma ReportedOnce(items: seq<Item>, s: State)
    requires Inv(items, s)
    requires forall i: nat :: i < |items| ==> (Report(i, true) in s.reports) != (Report(i, false) in s.reports)
    ensures OnceEach(Indices(s.reports), |items|)
    ensures forall r <- s.reports :: r.i < |items|
  {
    hide Counted, Shape, Exclusive, Covered, AttemptsMatch;
    var indices := Indices(s.reports);
    forall i: nat | i < |items|
      ensures i in indices
    {
      var r := if Report(i, true) in s.reports then Report(i, true) else Report(i, false);
      var a :| 0 <= a < |s.reports| && s.reports[a] == r;
      assert indices[a] == i;
    }
    forall i: nat | i in indices
      ensures i < |items|
    {
      var a :| 0 <= a < |indices| && indices[a] == i;
      assert s.reports[a] in s.reports;
    }
  }

  lemma AllReported(items: seq<Item>, s: State)
    requires Inv(items, s) && s.result.Some?
    ensures forall i: nat :: i < |items| ==> (Report(i, true) in s.reports) != (Report(i, false) in s.reports)
    ensures OnceEach(s.attempts, |items|) && |s.claims| > |items|
  {
    hide Counted;
    forall w | 0 <= w < |s.workers|
      ensures s.workers[w].Returned?
    {
      assert s.workers[w] in s.workers;
    }
    assert s.workers[0].Returned? && s.next > |items|;
    forall i: nat | i < |items|
      ensures (Report(i, true) in s.reports) != (Report(i, false) in s.reports)
    {
      assert !InFlight(s, i) && Reported(s, i);
      OneReport(items, s, i);
    }
    forall i: nat
      ensures i in s.attempts <==> i < |items|
    {
      assert !ToReport(s, i);
    }
  }

  lemma OneReport(items: seq<Item>, s: State, i: nat)
    requires Inv(items, s)
    ensures !(Report(i, true) in s.reports && Report(i, false) in s.reports)
  {
    hide Counted, Shape, Exclusive, Covered, AttemptsMatch;
    if Report(i, true) in s.reports {
      var a :| 0 <= a < |s.reports| && s.reports[a] == Report(i, true);
      forall b | 0 <= b < |s.reports|
        ensures s.reports[b] != Report(i, false)
      {
        assert a != b ==> s.reports[b].i != s.reports[a].i;
      }
    }
  }

  // --- Every run ends ---

  function Rank(items: seq<Item>, w: Worker): nat {
    match w
    case Looping => 2
    case Claimed(i) => if i < |items| then 5 else 1
    case Uploading(_) => 4
    case Reporting(_, _) => 3
    case Returned => 0
  }

  function Ranking(items: seq<Item>): Worker -> nat {
    w => Rank(items, w)
  }

  function Measure(items: seq<Item>, s: State): nat {
    4 * (if s.next < |items| then |items| - s.next else 0) + Total(Ranking(items), s.workers) +
    if s.result.None? then 1 else 0
  }

  lemma StepsRunOut(items: seq<Item>, s: State, step: Step)
    requires Inv(items, s) && Enabled(items, s, step)
    ensures Measure(items, Apply(items, s, step)) < Measure(items, s)
  {
    hide Exclusive, ReportsFinal, Covered, AttemptsMatch, Counted, Total;
    if !step.Finish? {
      TotalMoves(Ranking(items), s.workers, step.w, Apply(items, s, step).workers[step.w]);
    }
  }

  lemma {:induction false} RunsEnd(items: seq<Item>, threads: nat, states: seq<State>, steps: seq<Step>, k: nat)
    requires threads > 0 && IsRun(items, threads, states, steps) && k < |states|
    ensures k + Measure(items, states[k]) <= Measure(items, Init(threads))
  {
    hide Measure, Apply, Enabled, Init, Inv;
    if k > 0 {
      RunsEnd(items, threads, states, steps, k - 1);
      RunKeepsInv(items, threads, states, steps, k - 1);
      StepsRunOut(items, states[k - 1], steps[k - 1]);
    }
  }

  /** Every run is finite, and only a finished one cannot go on. */
  lemma EveryRunFinishes(items: seq<Item>, threads: nat, states: seq<State>, steps: seq<Step>)
    requires threads > 0 && IsRun(items, threads, states, steps)
    ensures |steps| <= 4 * |items| + 2 * threads + 1
    ensures states[|steps|].result.Some? || exists step :: Enabled(items, states[|steps|], step)
  {
    TotalOfSame(Ranking(items), Init(threads).workers, Looping);
    assert Measure(items, Init(threads)) == 4 * |items| + 2 * threads + 1;
    RunsEnd(items, threads, states, steps, |steps|);
    RunKeepsInv(items, threads, states, steps, |steps|);
    hide Measure, IsRun;
    if states[|steps|].result.None? {
      var step := NeverStuck(items, states[|steps|]);
    }
  }

  lemma NeverStuck(items: seq<Item>, s: State) returns (step: Step)
    requires Inv(items, s) && s.result.None?
    ensures Enabled(items, s, step)
  {
    hide Exclusive, ReportsFinal, Covered, AttemptsMatch, Counted;
    if forall w <- s.workers :: w.Returned? {
      step := Finish;
    } else {
      var w :| 0 <= w < |s.workers| && !s.workers[w].Returned?;
      match s.workers[w]
      case Looping => step := Claim(w);
      case Claimed(_) => step := Check(w);
      case Uploading(_) => step := Upload(w, true);
      case Reporting(_, _) => step := Tell(w);
    }
  }
}
