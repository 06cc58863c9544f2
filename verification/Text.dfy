/** Searching and decimal numbers: the text layer under the S3 requests and replies.
    A std::string is a seq<char> whose characters are bytes.
 */
module Text {
  datatype Option<+T> = None | Some(value: T)

  lemma Assoc<T>(a: seq<T>, b: seq<T>, c: seq<T>)
    ensures a + b + c == a + (b + c)
  {
  }

  // --- std::string::find ---

  predicate OccursAt(s: string, pat: string, i: nat) {
    i + |pat| <= |s| && s[i..i + |pat|] == pat
  }

  // The first occurrence of `pat` at or after `from`.
  function Find(s: string, pat: string, from: nat): (r: Option<nat>)
    requires from <= |s|
    ensures r.Some? ==> from <= r.value && OccursAt(s, pat, r.value)
    ensures r.Some? ==> forall i :: from <= i < r.value ==> !OccursAt(s, pat, i)
    ensures r.None? ==> forall i :: from <= i ==> !OccursAt(s, pat, i)
    decreases |s| - from
  {
    if OccursAt(s, pat, from) then Some(from)
    else if from == |s| then None
    else Find(s, pat, from + 1)
  }

  lemma {:induction false} FindSkips(s: string, pat: string, from: nat, to: nat)
    requires from <= to <= |s|
    requires forall i :: from <= i < to ==> !OccursAt(s, pat, i)
    ensures Find(s, pat, from) == Find(s, pat, to)
    decreases |s| - from
  {
    if from < to {
      FindSkips(s, pat, from + 1, to);
    }
  }

  // Searching a suffix is searching the string from there.
  lemma {:induction false} FindInSuffix(s: string, pat: string, base: nat, from: nat)
    requires base <= from <= |s|
    ensures Find(s, pat, from).None? ==> Find(s[base..], pat, from - base).None?
    ensures Find(s, pat, from).Some? ==> Find(s[base..], pat, from - base) == Some(Find(s, pat, from).value - base)
    decreases |s| - from
  {
    SuffixOccurrence(s, pat, base, from - base);
    if from < |s| {
      FindInSuffix(s, pat, base, from + 1);
    }
  }

  lemma SuffixOccurrence(s: string, pat: string, base: nat, i: nat)
    requires base + i <= |s|
    ensures OccursAt(s[base..], pat, i) <==> OccursAt(s, pat, base + i)
  {
    if base + i + |pat| <= |s| {
      assert s[base..][i..i + |pat|] == s[base + i..base + i + |pat|];
    }
  }

  // --- Numbers ---

  predicate IsDigit(c: char) { '0' <= c <= '9' }

  predicate AllDigits(s: string) {
    forall i :: 0 <= i < |s| ==> IsDigit(s[i])
  }

  function DigitValue(c: char): nat
    requires IsDigit(c)
  {
    c as nat - '0' as nat
  }

  // The number a string of decimal digits denotes.
  function DecimalValue(s: string): nat
    requires AllDigits(s)
  {
    if s == "" then 0 else 10 * DecimalValue(s[..|s| - 1]) + DigitValue(s[|s| - 1])
  }

  // std::to_string of an unsigned number.
  function Decimal(n: nat): (r: string)
    ensures r != "" && AllDigits(r)
  {
    var digit := ['0' + (n % 10) as char];
    if n < 10 then digit else Decimal(n / 10) + digit
  }

  lemma {:induction false} DecimalReadsBack(n: nat)
    ensures DecimalValue(Decimal(n)) == n
  {
    var r := Decimal(n);
    if n >= 10 {
      DecimalReadsBack(n / 10);
      assert r[..|r| - 1] == Decimal(n / 10);
    }
  }

  lemma {:induction false} PrefixIsNoLarger(s: string, k: nat)
    requires AllDigits(s) && k <= |s|
    ensures DecimalValue(s[..k]) <= DecimalValue(s)
  {
    if k == |s| {
      assert s[..k] == s;
    } else {
      PrefixIsNoLarger(s[..|s| - 1], k);
      assert s[..|s| - 1][..k] == s[..k];
    }
  }

  /** Accepts exactly the non-empty digit strings whose value fits 64 bits, and returns that value. */
  method ParseU64(s: string) returns (r: Option<nat>)
    ensures r.Some? <==> s != "" && AllDigits(s) && DecimalValue(s) <= 0xffff_ffff_ffff_ffff
    ensures r.Some? ==> r.value == DecimalValue(s)
  {
    if s == "" {
      return None;
    }
    var v := 0;
    for i := 0 to |s|
      invariant AllDigits(s[..i])
      invariant v == DecimalValue(s[..i]) && v <= 0xffff_ffff_ffff_ffff
    {
      assert s[..i + 1][..i] == s[..i];
      if !IsDigit(s[i]) {
        return None;
      }
      var d := DigitValue(s[i]);
      if v > (0xffff_ffff_ffff_ffff - d) / 10 {
        if AllDigits(s) {
          PrefixIsNoLarger(s, i + 1);
        }
        return None;
      }
      v := v * 10 + d;
    }
    assert s[..|s|] == s;
    r := Some(v);
  }

  // The specification of ParseU64 as a function.
  function U64Of(s: string): Option<nat> {
    if s != "" && AllDigits(s) && DecimalValue(s) <= 0xffff_ffff_ffff_ffff then Some(DecimalValue(s)) else None
  }

  lemma U64OfDecimal(n: nat)
    requires n <= 0xffff_ffff_ffff_ffff
    ensures U64Of(Decimal(n)) == Some(n)
  {
    DecimalReadsBack(n);
  }
}
