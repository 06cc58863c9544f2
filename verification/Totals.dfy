/** Sums over the threads of a pool, for measures that every step lowers. */
module Totals {
  function Total<T>(f: T -> nat, s: seq<T>): nat {
    if s == [] then 0 else Total(f, s[..|s| - 1]) + f(s[|s| - 1])
  }

  lemma {:induction false} TotalMoves<T>(f: T -> nat, s: seq<T>, k: nat, x: T)
    requires k < |s|
    ensures Total(f, s[k := x]) == Total(f, s) - f(s[k]) + f(x)
  {
    var n := |s| - 1;
    if k < n {
      TotalMoves(f, s[..n], k, x);
      assert s[k := x][..n] == s[..n][k := x];
    } else {
      assert s[k := x][..n] == s[..n];
    }
  }

  lemma {:induction false} TotalOfSame<T>(f: T -> nat, s: seq<T>, x: T)
    requires forall i :: 0 <= i < |s| ==> s[i] == x
    ensures Total(f, s) == |s| * f(x)
  {
    if s != [] {
      TotalOfSame(f, s[..|s| - 1], x);
    }
  }
}
