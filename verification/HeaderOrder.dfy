/** When the order of headers shows in a signature: the exact condition. */
module HeaderOrder {
  import opened SigV4

  predicate OneLine(s: string) { '\n' !in s }

  lemma TrimOneLine(s: string)
    requires OneLine(s)
    ensures OneLine(Trim(s))
  {
    TrimFrontIn(s);
    TrimBackIn(TrimFront(s));
  }

  lemma {:induction false} TrimFrontIn(s: string)
    ensures forall c <- TrimFront(s) :: c in s
  {
    if s != "" && IsBlank(s[0]) {
      TrimFrontIn(s[1..]);
    }
  }

  lemma {:induction false} TrimBackIn(s: string)
    ensures forall c <- TrimBack(s) :: c in s
  {
    if s != "" && IsBlank(s[|s| - 1]) {
      TrimBackIn(s[..|s| - 1]);
    }
  }

  // The text before the first line break is unique.
  lemma FirstLine(s: string, a: string, b: string)
    requires |a| < |s| && s[..|a|] == a && s[|a|] == '\n' && OneLine(a)
    requires |b| < |s| && s[..|b|] == b && s[|b|] == '\n' && OneLine(b)
    ensures a == b
  {
    NoBreakInside(s, a);
    NoBreakInside(s, b);
  }

  lemma NoBreakInside(s: string, line: string)
    requires |line| <= |s| && s[..|line|] == line && OneLine(line)
    ensures forall i :: 0 <= i < |line| ==> s[i] != '\n'
  {
    forall i | 0 <= i < |line|
      ensures s[i] != '\n'
    {
      assert s[i] == line[i];
    }
  }

  // --- Sorts exist ---

  lemma {:induction false} SortExists(headers: seq<Header>) returns (sorted: seq<Header>)
    ensures IsSort(headers, sorted)
  {
    sorted := [];
    if headers != [] {
      var last := headers[|headers| - 1];
      var before := SortExists(headers[..|headers| - 1]);
      var k := 0;
      while k < |before| && !Less(last.name, before[k].name)
        invariant k <= |before|
        invariant forall j :: 0 <= j < k ==> !Less(last.name, before[j].name)
      {
        k := k + 1;
      }
      InsertAscending(before, k, last);
      InsertMembers(before, k, last);
      sorted := before[..k] + [last] + before[k..];
      assert headers == headers[..|headers| - 1] + [last];
    }
  }

  // --- Exchanging two headers of one name ---

  function Exchanged(s: seq<Header>, i: nat, j: nat): seq<Header>
    requires i < j < |s|
  {
    s[i := s[j]][j := s[i]]
  }

  lemma ExchangeKeepsSort(headers: seq<Header>, s: seq<Header>, i: nat, j: nat)
    requires IsSort(headers, s) && i < j < |s| && s[i].name == s[j].name
    ensures IsSort(headers, Exchanged(s, i, j))
  {
    hide Less, Ascending, Exchanged;
    ExchangeKeepsMembers(s, i, j);
    ExchangeKeepsNames(s, i, j);
    SameNamesAscend(s, Exchanged(s, i, j));
  }

  lemma ExchangeKeepsMembers(s: seq<Header>, i: nat, j: nat)
    requires i < j < |s|
    ensures multiset(Exchanged(s, i, j)) == multiset(s)
  {
  }

  lemma ExchangeKeepsNames(s: seq<Header>, i: nat, j: nat)
    requires i < j < |s| && s[i].name == s[j].name
    ensures |Exchanged(s, i, j)| == |s| && forall k :: 0 <= k < |s| ==> Exchanged(s, i, j)[k].name == s[k].name
  {
  }

  lemma SameNamesAscend(s: seq<Header>, t: seq<Header>)
    requires Ascending(s) && |s| == |t| && forall k :: 0 <= k < |s| ==> t[k].name == s[k].name
    ensures Ascending(t)
  {
    hide Less;
    forall i, j | 0 <= i < j < |t|
      ensures !Less(t[j].name, t[i].name)
    {
      assert t[i].name == s[i].name && t[j].name == s[j].name;
    }
  }

  lemma {:induction false} CanonicalConcat(a: seq<Header>, b: seq<Header>)
    ensures CanonicalHeaders(a + b) == CanonicalHeaders(a) + CanonicalHeaders(b)
  {
    hide Line;
    if b == [] {
      assert a + b == a;
    } else {
      CanonicalConcat(a, b[..|b| - 1]);
      assert (a + b)[..|a + b| - 1] == a + b[..|b| - 1];
    }
  }

  lemma CanonicalSplit(s: seq<Header>, a: seq<Header>, h: Header, b: seq<Header>)
    requires s == a + ([h] + b)
    ensures CanonicalHeaders(s) == CanonicalHeaders(a) + (Line(h) + CanonicalHeaders(b))
  {
    hide Line, CanonicalHeaders;
    CanonicalConcat(a, [h] + b);
    CanonicalConcat([h], b);
    CanonicalOne(h);
  }

  lemma CanonicalOne(h: Header)
    ensures CanonicalHeaders([h]) == Line(h)
  {
    hide Line;
    assert [h][..0] == [] && CanonicalHeaders([]) == "";
    assert "" + Line(h) == Line(h);
  }

  // Two texts that begin with lines of the same name begin with the same value.
  lemma SameFirstLine(h: Header, k: Header, rest: string, other: string)
    requires h.name == k.name && OneLine(h.value) && OneLine(k.value)
    requires Line(h) + rest == Line(k) + other
    ensures Trim(h.value) == Trim(k.value)
  {
    hide Trim;
    TrimOneLine(h.value);
    TrimOneLine(k.value);
    var a, b := Trim(h.value), Trim(k.value);
    var n := |h.name| + 1;
    var text := Line(h) + rest;
    assert text[n..n + |a|] == a && text[n + |a|] == '\n';
    assert text[n..n + |b|] == b && text[n + |b|] == '\n';
    FirstLine(text[n..], a, b);
  }

  lemma ExchangeParts(s: seq<Header>, i: nat, j: nat) returns (a: seq<Header>, mine: seq<Header>, other: seq<Header>)
    requires i < j < |s|
    ensures s == a + ([s[i]] + mine) && Exchanged(s, i, j) == a + ([s[j]] + other)
  {
    a, mine, other := s[..i], s[i + 1..], Exchanged(s, i, j)[i + 1..];
  }

  lemma ExchangeShows(s: seq<Header>, i: nat, j: nat)
    requires i < j < |s| && s[i].name == s[j].name && OneLine(s[i].value) && OneLine(s[j].value)
    requires CanonicalHeaders(s) == CanonicalHeaders(Exchanged(s, i, j))
    ensures Trim(s[i].value) == Trim(s[j].value)
  {
    hide Trim, Line, CanonicalHeaders, OneLine, Exchanged;
    var a, mine, other := ExchangeParts(s, i, j);
    CanonicalSplit(s, a, s[i], mine);
    CanonicalSplit(Exchanged(s, i, j), a, s[j], other);
    SameRest(CanonicalHeaders(a), Line(s[i]) + CanonicalHeaders(mine), Line(s[j]) + CanonicalHeaders(other));
    SameFirstLine(s[i], s[j], CanonicalHeaders(mine), CanonicalHeaders(other));
  }

  lemma SameRest(front: string, a: string, b: string)
    requires front + a == front + b
    ensures a == b
  {
    assert (front + a)[|front|..] == a && (front + b)[|front|..] == b;
  }

  /** For every list of headers with values of one line: all the ways a sort may leave them give the same
      canonical headers exactly when headers of one name have values that are equal but for blanks around
      them. */
  lemma OrderShows(headers: seq<Header>)
    requires forall h <- headers :: OneLine(h.value)
    ensures (forall s, t :: IsSort(headers, s) && IsSort(headers, t) ==> CanonicalHeaders(s) == CanonicalHeaders(t))
            <==> Consistent(headers)
  {
    hide Trim, CanonicalHeaders, OneLine;
    if Consistent(headers) {
      forall s, t | IsSort(headers, s) && IsSort(headers, t)
        ensures CanonicalHeaders(s) == CanonicalHeaders(t)
      {
        SortsShow(headers, headers, s, t);
      }
    } else {
      var x, y :| x in headers && y in headers && x.name == y.name && Trim(x.value) != Trim(y.value);
      var s := SortExists(headers);
      TwoSorts(headers, s, x, y);
    }
  }

  lemma TwoSorts(headers: seq<Header>, s: seq<Header>, x: Header, y: Header)
    requires forall h <- headers :: OneLine(h.value)
    requires IsSort(headers, s) && x in headers && y in headers
    requires x.name == y.name && Trim(x.value) != Trim(y.value)
    ensures exists t :: IsSort(headers, t) && CanonicalHeaders(s) != CanonicalHeaders(t)
  {
    hide Trim, CanonicalHeaders, OneLine, Ascending;
    assert x in multiset(s) && y in multiset(s);
    var i :| 0 <= i < |s| && s[i] == x;
    var j :| 0 <= j < |s| && s[j] == y;
    var p, q := if i < j then i else j, if i < j then j else i;
    var t := Exchanged(s, p, q);
    ExchangeKeepsSort(headers, s, p, q);
    if CanonicalHeaders(s) == CanonicalHeaders(t) {
      ExchangeShows(s, p, q);
    }
  }

  /** Two headers of one name: the shortest list that shows it. */
  lemma SameNameOrder(name: string, v: string, w: string)
    requires OneLine(v) && OneLine(w)
    ensures var h, k := Header(name, v), Header(name, w);
      && IsSort([h, k], [h, k]) && IsSort([h, k], [k, h])
      && (CanonicalHeaders([h, k]) == CanonicalHeaders([k, h]) <==> Trim(v) == Trim(w))
  {
    hide Trim, CanonicalHeaders;
    var h, k := Header(name, v), Header(name, w);
    LessIsTotal(name, name);
    assert Exchanged([h, k], 0, 1) == [k, h];
    ExchangeKeepsSort([h, k], [h, k], 0, 1);
    if CanonicalHeaders([h, k]) == CanonicalHeaders([k, h]) {
      ExchangeShows([h, k], 0, 1);
    } else {
      SortsShow([h, k], [h, k], [h, k], [k, h]);
    }
  }
}
