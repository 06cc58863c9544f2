/** Least-recently-used order as a list of names, most recent first. The reference the cache directory
    is proved against.
 */
module Recency {
  function Without(l: seq<string>, x: string): (r: seq<string>)
    ensures |r| <= |l|
    ensures forall y :: y in r <==> y in l && y != x
  {
    if l == [] then [] else (if l[0] == x then [] else [l[0]]) + Without(l[1..], x)
  }

  function Take(l: seq<string>, k: nat): seq<string> {
    if k < |l| then l[..k] else l
  }

  predicate Distinct(l: seq<string>) {
    forall i, j :: 0 <= i < j < |l| ==> l[i] != l[j]
  }

  function MoveToFront(l: seq<string>, x: string): seq<string> { [x] + Without(l, x) }

  lemma {:induction false} WithoutDistinct(l: seq<string>, x: string)
    requires Distinct(l)
    ensures Distinct(Without(l, x))
    ensures x !in l ==> Without(l, x) == l
    ensures x in l ==> |Without(l, x)| == |l| - 1
  {
    if l != [] {
      var rest := l[1..];
      assert Distinct(rest);
      WithoutDistinct(rest, x);
      assert forall y :: y in rest ==> y != l[0];
      if l[0] == x {
        assert Without(l, x) == Without(rest, x);
      } else {
        var r := Without(rest, x);
        assert Without(l, x) == [l[0]] + r;
        assert l[0] !in r;
        PrependDistinct(l[0], r);
      }
    }
  }

  lemma PrependDistinct(x: string, l: seq<string>)
    requires Distinct(l) && x !in l
    ensures Distinct([x] + l)
  {
    var r := [x] + l;
    forall i, j | 0 <= i < j < |r|
      ensures r[i] != r[j]
    {
      assert r[j] == l[j - 1];
      if i > 0 {
        assert r[i] == l[i - 1];
      }
    }
  }

  lemma MoveToFrontDistinct(l: seq<string>, x: string)
    requires Distinct(l)
    ensures Distinct(MoveToFront(l, x))
  {
    WithoutDistinct(l, x);
    PrependDistinct(x, Without(l, x));
  }

  lemma {:induction false} WithoutTake(l: seq<string>, x: string, c: nat)
    requires Distinct(l)
    ensures Take(Without(Take(l, c + 1), x), c) == Take(Without(l, x), c)
  {
    if l != [] && c > 0 {
      var y, rest := l[0], l[1..];
      assert l == [y] + rest && Distinct(rest) && y !in rest;
      TakeIsDistinct(rest, c);
      hide Take, Without, Distinct;
      TakeCons(y, rest, c + 1);
      WithoutCons(y, rest, x);
      WithoutCons(y, Take(rest, c), x);
      if y == x {
        WithoutDistinct(rest, x);
        WithoutDistinct(Take(rest, c), x);
        TakeTwice(rest, c);
      } else {
        WithoutTake(rest, x, c - 1);
        TakeCons(y, Without(Take(rest, c), x), c);
        TakeCons(y, Without(rest, x), c);
      }
    }
  }

  lemma TakeCons(y: string, l: seq<string>, c: nat)
    requires c > 0
    ensures Take([y] + l, c) == [y] + Take(l, c - 1)
  {
  }

  lemma WithoutCons(y: string, l: seq<string>, x: string)
    ensures Without([y] + l, x) == if y == x then Without(l, x) else [y] + Without(l, x)
  {
    assert ([y] + l)[1..] == l;
  }

  lemma TakeTwice(l: seq<string>, c: nat)
    ensures Take(Take(l, c), c) == Take(l, c)
  {
  }

  lemma TakeIsDistinct(l: seq<string>, c: nat)
    requires Distinct(l)
    ensures Distinct(Take(l, c)) && forall y :: y in Take(l, c) ==> y in l
  {
  }

  // --- Request traces ---

  // One use of a name, and whether a fetch of it would bring something that may be cached. That can differ
  // from one use to the next.
  datatype Use = Use(name: string, cacheable: bool)

  // The distinct names of the cacheable uses of a trace, the one used last in front.
  function Recent(trace: seq<Use>): seq<string> {
    if trace == [] then []
    else
      var before, use := Recent(trace[..|trace| - 1]), trace[|trace| - 1];
      if use.cacheable then MoveToFront(before, use.name) else before
  }

  // An LRU cache of `cap` names: a hit moves to the front; a miss that brings something enters there, and the
  // last name falls out.
  function Lru(trace: seq<Use>, cap: nat): seq<string> {
    if trace == [] then []
    else
      var before, use := Lru(trace[..|trace| - 1], cap), trace[|trace| - 1];
      Used(before, use, cap)
  }

  function Used(l: seq<string>, use: Use, cap: nat): seq<string> {
    if use.name in l then MoveToFront(l, use.name)
    else if use.cacheable then Take(MoveToFront(l, use.name), cap)
    else l
  }

  function Hits(trace: seq<Use>, cap: nat): nat {
    if trace == [] then 0
    else
      var before, use := trace[..|trace| - 1], trace[|trace| - 1];
      Hits(before, cap) + if use.name in Lru(before, cap) then 1 else 0
  }

  // Every name is always cacheable or never.
  predicate Consistent(trace: seq<Use>) {
    forall u, v :: u in trace && v in trace && u.name == v.name ==> u.cacheable == v.cacheable
  }

  lemma {:induction false} RecentDistinct(trace: seq<Use>)
    ensures Distinct(Recent(trace))
  {
    if trace != [] {
      RecentDistinct(trace[..|trace| - 1]);
      MoveToFrontDistinct(Recent(trace[..|trace| - 1]), trace[|trace| - 1].name);
    }
  }

  lemma {:induction false} LruFits(trace: seq<Use>, cap: nat)
    requires cap > 0
    ensures Distinct(Lru(trace, cap)) && |Lru(trace, cap)| <= cap
  {
    if trace != [] {
      var l, x := Lru(trace[..|trace| - 1], cap), trace[|trace| - 1].name;
      LruFits(trace[..|trace| - 1], cap);
      MoveToFrontDistinct(l, x);
      WithoutDistinct(l, x);
      TakeIsDistinct(MoveToFront(l, x), cap);
    }
  }

  /** What an LRU cache holds when names are always cacheable or never: the `cap` most recently used distinct
      cacheable names. */
  lemma {:induction false} LruIsMostRecent(trace: seq<Use>, cap: nat)
    requires cap > 0 && Consistent(trace)
    ensures Lru(trace, cap) == Take(Recent(trace), cap)
  {
    if trace != [] {
      var before, use := trace[..|trace| - 1], trace[|trace| - 1];
      var l, x := Recent(before), use.name;
      LruIsMostRecent(before, cap);
      RecentDistinct(before);
      LruFits(before, cap);
      RecentIsCacheable(before, x);
      WithoutDistinct(Take(l, cap), x);
      hide Without, Distinct, Recent;
      TakeMoved(l, x, cap);
    }
  }

  // Moving to the front commutes with cutting to capacity.
  lemma TakeMoved(l: seq<string>, x: string, cap: nat)
    requires cap > 0 && Distinct(l)
    ensures Take(MoveToFront(Take(l, cap), x), cap) == Take(MoveToFront(l, x), cap)
  {
    WithoutTake(l, x, cap - 1);
    TakeCons(x, Without(Take(l, cap), x), cap);
    TakeCons(x, Without(l, x), cap);
  }

  lemma {:induction false} RecentIsCacheable(trace: seq<Use>, x: string)
    ensures x in Recent(trace) ==> Use(x, true) in trace
  {
    if trace != [] {
      RecentIsCacheable(trace[..|trace| - 1], x);
    }
  }

  // --- Inclusion ---

  // `a` is `b` with some names left out.
  predicate Within(a: seq<string>, b: seq<string>)
    decreases |b|
  {
    a == [] || (b != [] && ((a[0] == b[0] && Within(a[1..], b[1..])) || Within(a, b[1..])))
  }

  lemma {:induction false} WithinMembers(a: seq<string>, b: seq<string>, x: string)
    requires Within(a, b) && x in a
    ensures x in b
    decreases |b|
  {
    if a[0] == b[0] && Within(a[1..], b[1..]) {
      if x != a[0] {
        WithinMembers(a[1..], b[1..], x);
      }
    } else {
      WithinMembers(a, b[1..], x);
    }
  }

  lemma WithinCons(x: string, a: seq<string>, b: seq<string>)
    requires Within(a, b)
    ensures Within([x] + a, [x] + b) && Within(a, [x] + b)
  {
    assert ([x] + a)[1..] == a && ([x] + b)[1..] == b;
  }

  lemma {:induction false} WithinItself(a: seq<string>)
    ensures Within(a, a)
  {
    if a != [] {
      WithinItself(a[1..]);
    }
  }

  lemma {:induction false} WithinDropsLast(a: seq<string>, b: seq<string>)
    requires Within(a, b) && a != []
    ensures b != [] && Within(a[..|a| - 1], b[..|b| - 1])
    decreases |b|
  {
    if a[0] == b[0] && Within(a[1..], b[1..]) {
      if |a| > 1 {
        WithinDropsLast(a[1..], b[1..]);
        assert a[..|a| - 1][1..] == a[1..][..|a| - 2] && b[..|b| - 1][1..] == b[1..][..|b| - 2];
      }
    } else {
      WithinDropsLast(a, b[1..]);
      assert b[..|b| - 1][1..] == b[1..][..|b| - 2];
    }
  }

  lemma {:induction false} WithinWithout(a: seq<string>, b: seq<string>, x: string)
    requires Within(a, b)
    ensures Within(Without(a, x), Without(b, x))
    decreases |b|
  {
    if a != [] {
      assert a == [a[0]] + a[1..] && b == [b[0]] + b[1..];
      WithoutCons(a[0], a[1..], x);
      WithoutCons(b[0], b[1..], x);
      if a[0] == b[0] && Within(a[1..], b[1..]) {
        WithinWithout(a[1..], b[1..], x);
        if a[0] != x {
          WithinCons(a[0], Without(a[1..], x), Without(b[1..], x));
        }
      } else {
        WithinWithout(a, b[1..], x);
        if b[0] != x {
          WithinCons(b[0], Without(a, x), Without(b[1..], x));
        }
      }
    }
  }

  // What a smaller cache holds of a larger one: some of its names in its order, and all of them while the
  // smaller one has room.
  ghost predicate Included(a: seq<string>, small: nat, b: seq<string>, large: nat) {
    && Distinct(a) && Distinct(b) && |a| <= small && |b| <= large
    && Within(a, b) && (|a| < small ==> a == b)
  }

  lemma UseKeepsIncluded(a: seq<string>, small: nat, b: seq<string>, large: nat, use: Use)
    requires 0 < small <= large && Included(a, small, b, large)
    ensures Included(Used(a, use, small), small, Used(b, use, large), large)
  {
    var x := use.name;
    MoveToFrontDistinct(a, x);
    MoveToFrontDistinct(b, x);
    WithoutDistinct(a, x);
    WithoutDistinct(b, x);
    TakeIsDistinct(MoveToFront(a, x), small);
    TakeIsDistinct(MoveToFront(b, x), large);
    WithinWithout(a, b, x);
    if x in a {
      WithinMembers(a, b, x);
      WithinCons(x, Without(a, x), Without(b, x));
    } else if x in b {
      WithinCons(x, a, Without(b, x));
      if use.cacheable {
        ShortWithin(a, Without(b, x));
        WithinCons(x, a[..|a| - 1], Without(b, x));
        TakeCons(x, a, small);
        assert Take(a, small - 1) == a[..|a| - 1];
      }
    } else if use.cacheable {
      EntersBoth(a, small, b, large, x);
    }
  }

  lemma ShortWithin(a: seq<string>, b: seq<string>)
    requires Within(a, b) && a != []
    ensures Within(a[..|a| - 1], b)
  {
    WithinDropsLast(a, b);
    WithinMore(a[..|a| - 1], b[..|b| - 1], b[|b| - 1]);
    assert b[..|b| - 1] + [b[|b| - 1]] == b;
  }

  lemma {:induction false} WithinMore(a: seq<string>, b: seq<string>, x: string)
    requires Within(a, b)
    ensures Within(a, b + [x])
    decreases |b|
  {
    if a != [] {
      assert (b + [x])[1..] == b[1..] + [x];
      if a[0] == b[0] && Within(a[1..], b[1..]) {
        WithinMore(a[1..], b[1..], x);
      } else {
        WithinMore(a, b[1..], x);
      }
    }
  }

  // A name that neither holds enters both.
  lemma EntersBoth(a: seq<string>, small: nat, b: seq<string>, large: nat, x: string)
    requires 0 < small <= large && Included(a, small, b, large) && x !in a && x !in b
    ensures Within(Take([x] + a, small), Take([x] + b, large))
    ensures |a| < small ==> Take([x] + a, small) == Take([x] + b, large)
  {
    TakeCons(x, a, small);
    TakeCons(x, b, large);
    if |a| == small {
      assert Take(a, small - 1) == a[..|a| - 1];
      if |b| == large {
        WithinDropsLast(a, b);
        assert Take(b, large - 1) == b[..|b| - 1];
      } else {
        ShortWithin(a, b);
      }
      WithinCons(x, Take(a, small - 1), Take(b, large - 1));
    } else {
      WithinItself(Take([x] + a, small));
    }
  }

  lemma {:induction false} LruIncluded(trace: seq<Use>, small: nat, large: nat)
    requires 0 < small <= large
    ensures Included(Lru(trace, small), small, Lru(trace, large), large)
  {
    if trace != [] {
      LruIncluded(trace[..|trace| - 1], small, large);
      UseKeepsIncluded(Lru(trace[..|trace| - 1], small), small, Lru(trace[..|trace| - 1], large), large,
                       trace[|trace| - 1]);
    }
  }

  /** On every trace, whatever each fetch brings, a larger cache holds everything a smaller one holds, and never
      hits less often. When names are always cacheable or never, the smaller one holds the front of the larger
      one's list. */
  lemma {:induction false} LargerCacheHoldsMore(trace: seq<Use>, small: nat, large: nat)
    requires 0 < small <= large
    ensures forall x :: x in Lru(trace, small) ==> x in Lru(trace, large)
    ensures Hits(trace, small) <= Hits(trace, large)
    ensures Consistent(trace) ==> Lru(trace, small) <= Lru(trace, large)
  {
    hide Lru;
    LruIncluded(trace, small, large);
    forall x | x in Lru(trace, small)
      ensures x in Lru(trace, large)
    {
      WithinMembers(Lru(trace, small), Lru(trace, large), x);
    }
    if Consistent(trace) {
      LruIsMostRecent(trace, small);
      LruIsMostRecent(trace, large);
    }
    if trace != [] {
      LargerCacheHoldsMore(trace[..|trace| - 1], small, large);
    }
  }

  // --- Order ---

  // The position of the last cacheable use of x, counted from 1; 0 when there is none.
  function LastUse(trace: seq<Use>, x: string): nat {
    if trace == [] then 0
    else if trace[|trace| - 1] == Use(x, true) then |trace|
    else LastUse(trace[..|trace| - 1], x)
  }

  predicate InUseOrder(l: seq<string>, trace: seq<Use>) {
    forall i, j :: 0 <= i < j < |l| ==> LastUse(trace, l[i]) > LastUse(trace, l[j])
  }

  lemma {:induction false} LastUseBound(trace: seq<Use>, x: string)
    ensures LastUse(trace, x) <= |trace|
  {
    if trace != [] {
      LastUseBound(trace[..|trace| - 1], x);
    }
  }

  /** Recent lists exactly the names with a cacheable use ... */
  lemma {:induction false} RecentMembers(trace: seq<Use>, x: string)
    ensures x in Recent(trace) <==> LastUse(trace, x) > 0
  {
    if trace != [] {
      RecentMembers(trace[..|trace| - 1], x);
    }
  }

  /** ... by falling position of the last one. */
  lemma {:induction false} RecentOrder(trace: seq<Use>)
    ensures InUseOrder(Recent(trace), trace)
  {
    if trace != [] {
      var before, use := trace[..|trace| - 1], trace[|trace| - 1];
      var l := Recent(before);
      RecentOrder(before);
      assert before + [use] == trace;
      if use.cacheable {
        WithoutKeepsOrder(l, use.name, before);
        OrderAfterUse(Without(l, use.name), before, use);
        UseComesFirst(Without(l, use.name), before, use.name);
      } else {
        OrderAfterUse(l, before, use);
      }
    }
  }

  // A later use of another name, or one that is not cacheable, changes nothing in the order ...
  lemma OrderAfterUse(r: seq<string>, before: seq<Use>, use: Use)
    requires InUseOrder(r, before) && (use.cacheable ==> use.name !in r)
    ensures InUseOrder(r, before + [use])
  {
    var trace := before + [use];
    assert trace[..|trace| - 1] == before;
    forall i | 0 <= i < |r|
      ensures LastUse(trace, r[i]) == LastUse(before, r[i])
    {
      assert use != Use(r[i], true);
    }
  }

  // ... and the name used comes before all others.
  lemma UseComesFirst(r: seq<string>, before: seq<Use>, x: string)
    requires InUseOrder(r, before + [Use(x, true)]) && x !in r
    ensures InUseOrder([x] + r, before + [Use(x, true)])
  {
    var trace, all := before + [Use(x, true)], [x] + r;
    assert trace[..|trace| - 1] == before;
    forall i, j | 0 <= i < j < |all|
      ensures LastUse(trace, all[i]) > LastUse(trace, all[j])
    {
      assert all[j] == r[j - 1] && r[j - 1] != x;
      LastUseBound(before, all[j]);
      if i > 0 {
        assert all[i] == r[i - 1];
      }
    }
  }

  lemma {:induction false} WithoutKeepsOrder(l: seq<string>, x: string, trace: seq<Use>)
    requires InUseOrder(l, trace)
    ensures InUseOrder(Without(l, x), trace)
  {
    if l != [] {
      assert InUseOrder(l[1..], trace);
      WithoutKeepsOrder(l[1..], x, trace);
      var r := Without(l[1..], x);
      assert forall y :: y in r ==> y in l[1..];
      forall j | 0 <= j < |r|
        ensures LastUse(trace, l[0]) > LastUse(trace, r[j])
      {
        assert r[j] in l[1..];
        var k :| 0 <= k < |l[1..]| && l[1..][k] == r[j];
        assert l[k + 1] == r[j];
      }
    }
  }
}
