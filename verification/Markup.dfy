/** Finding elements in an XML reply by searching for their tags, and why that finds the right ones:
    a document is a sequence of tags and texts, and a tag is found exactly where it stands.
 */
module Markup {
  import opened Text
  import opened Xml

  function Open(tag: string): string { "<" + tag + ">" }

  // --- next_element and xml_tag ---

  // The raw text of the next <tag>...</tag> at or after `pos`, and the position behind it.
  function NextElement(xml: string, pos: nat, tag: string): (r: Option<(string, nat)>)
    requires pos <= |xml|
    ensures r.Some? ==> pos < r.value.1 <= |xml|
  {
    var b := Find(xml, Open(tag), pos);
    if b.None? then None
    else
      var start := b.value + |Open(tag)|;
      var e := Find(xml, Open("/" + tag), start);
      if e.None? then None
      else Some((xml[start..e.value], e.value + |Open("/" + tag)|))
  }

  // The unescaped text of the first <tag>...</tag>, "" when there is none.
  function XmlTag(xml: string, tag: string): string {
    var e := NextElement(xml, 0, tag);
    if e.None? then "" else Unescape(e.value.0)
  }

  // --- Documents ---

  datatype Token = Tag(name: string) | Chars(text: string)
  {
    predicate WellFormed() {
      if Tag? then NoMarkup(name) else IsText(text)
    }

    function Render(): string {
      if Tag? then Open(name) else text
    }
  }

  type Doc = seq<Token>

  predicate WellFormed(doc: Doc) {
    forall t <- doc :: t.WellFormed()
  }

  predicate Has(doc: Doc, name: string) {
    Tag(name) in doc
  }

  function Render(doc: Doc): string {
    if doc == [] then "" else doc[0].Render() + Render(doc[1..])
  }

  lemma {:induction false} RenderConcat(a: Doc, b: Doc)
    ensures Render(a + b) == Render(a) + Render(b)
  {
    if a == [] {
      assert a + b == b;
    } else {
      assert (a + b)[1..] == a[1..] + b;
      RenderConcat(a[1..], b);
    }
  }

  // Texts that hold no markup: anything escaped, and numbers.
  function EscapedText(text: string): (r: Doc)
    ensures |r| == 1 && WellFormed(r) && forall name :: !Has(r, name)
  {
    EscapeHidesMarkup(text);
    [Chars(Escape(text))]
  }

  function WrittenText(pieces: seq<Piece>): (r: Doc)
    ensures |r| == 1 && (Conforming(pieces) ==> WellFormed(r)) && forall name :: !Has(r, name)
  {
    assert Conforming(pieces) ==> IsText(Written(pieces)) by {
      if Conforming(pieces) {
        WrittenIsText(pieces);
      }
    }
    [Chars(Written(pieces))]
  }

  function DecimalText(n: nat): (r: Doc)
    ensures |r| == 1 && WellFormed(r) && forall name :: !Has(r, name)
  {
    [Chars(Decimal(n))]
  }

  lemma TextRenders(text: string)
    ensures Render(EscapedText(text)) == Escape(text)
  {
    RenderOne(Chars(Escape(text)));
  }

  lemma WrittenRenders(pieces: seq<Piece>)
    ensures Render(WrittenText(pieces)) == Written(pieces)
  {
    RenderOne(Chars(Written(pieces)));
  }

  lemma NumberRenders(n: nat)
    ensures Render(DecimalText(n)) == Decimal(n)
  {
    RenderOne(Chars(Decimal(n)));
  }

  // --- A tag occurs only where its token stands ---

  // In the rendering of `t` and whatever follows it, a tag starts only if `t` is that tag.
  lemma TagAtHead(t: Token, rest: string, name: string, i: nat)
    requires t.WellFormed() && NoMarkup(name)
    requires i < |t.Render()| && OccursAt(t.Render() + rest, Open(name), i)
    ensures t == Tag(name)
  {
    var pat := Open(name);
    var s := t.Render() + rest;
    SameCharacters(s, pat, i);
    assert s[i + 0] == pat[0] == '<';
    assert s[i] == t.Render()[i];
    StartsAtZero(t, i);
    var inside := Open(t.name);
    assert s[0 + (1 + |name|)] == pat[1 + |name|] == '>';
    assert s[1 + |t.name|] == inside[1 + |t.name|] == '>';
    assert |name| == |t.name|;
    forall k | 0 <= k < |name|
      ensures name[k] == t.name[k]
    {
      assert s[0 + (1 + k)] == pat[1 + k];
    }
  }

  lemma StartsAtZero(t: Token, i: nat)
    requires t.WellFormed() && i < |t.Render()| && t.Render()[i] == '<'
    ensures t.Tag? && i == 0
  {
  }

  lemma SameCharacters(s: string, pat: string, i: nat)
    requires OccursAt(s, pat, i)
    ensures forall k :: 0 <= k < |pat| ==> s[i + k] == pat[k]
  {
    forall k | 0 <= k < |pat|
      ensures s[i + k] == pat[k]
    {
      assert s[i..i + |pat|][k] == s[i + k];
    }
  }

  /** Searching passes over every token that is not the tag. */
  lemma {:induction false} FindPasses(before: string, skip: Doc, after: string, name: string)
    requires WellFormed(skip) && NoMarkup(name) && !Has(skip, name)
    ensures var s := before + Render(skip) + after;
      Find(s, Open(name), |before|) == Find(s, Open(name), |before| + |Render(skip)|)
    decreases skip
  {
    hide Find, OccursAt, Open, NoMarkup;
    var s := before + Render(skip) + after;
    if skip != [] {
      var t, more := skip[0], skip[1..];
      var rest := Render(more) + after;
      assert s == (before + t.Render()) + Render(more) + after;
      FindPasses(before + t.Render(), more, after, name);
      var from := |before|;
      assert s[from..] == t.Render() + rest;
      forall i | from <= i < from + |t.Render()|
        ensures !OccursAt(s, Open(name), i)
      {
        SuffixOccurrence(s, Open(name), from, i - from);
        if OccursAt(s, Open(name), i) {
          TagAtHead(t, rest, name, i - from);
        }
      }
      FindSkips(s, Open(name), from, from + |t.Render()|);
    }
  }

  // The tag itself is found where it stands.
  lemma FindStops(before: string, name: string, after: string)
    ensures Find(before + Open(name) + after, Open(name), |before|) == Some(|before|)
  {
    var s := before + Open(name) + after;
    assert s[|before|..|before| + |Open(name)|] == Open(name);
  }

  // The first such tag after tokens that are not it.
  lemma FindTag(before: string, skip: Doc, name: string, after: string)
    requires WellFormed(skip) && NoMarkup(name) && !Has(skip, name)
    ensures Find(before + Render(skip) + Open(name) + after, Open(name), |before|) ==
            Some(|before| + |Render(skip)|)
  {
    hide Render, Find, Has, WellFormed, NoMarkup, Open;
    var s := before + Render(skip) + Open(name) + after;
    assert s == before + Render(skip) + (Open(name) + after);
    FindPasses(before, skip, Open(name) + after, name);
    FindStops(before + Render(skip), name, after);
  }

  // [open] inner [close], with tokens to skip in front.
  function Whole(skip: Doc, tag: string, inner: Doc): Doc {
    skip + [Tag(tag)] + inner + [Tag("/" + tag)]
  }

  lemma HasConcat(a: Doc, b: Doc, name: string)
    ensures Has(a + b, name) <==> Has(a, name) || Has(b, name)
  {
  }

  lemma HasInWhole(skip: Doc, tag: string, inner: Doc, name: string)
    ensures Has(Whole(skip, tag, inner), name) <==>
            Has(skip, name) || name == tag || Has(inner, name) || name == "/" + tag
  {
    HasConcat(skip + [Tag(tag)] + inner, [Tag("/" + tag)], name);
    HasConcat(skip + [Tag(tag)], inner, name);
    HasConcat(skip, [Tag(tag)], name);
  }

  lemma WellFormedConcat(a: Doc, b: Doc)
    requires WellFormed(a) && WellFormed(b)
    ensures WellFormed(a + b)
  {
  }

  lemma WholeWellFormed(skip: Doc, tag: string, inner: Doc)
    requires WellFormed(skip) && NoMarkup(tag) && WellFormed(inner)
    ensures WellFormed(Whole(skip, tag, inner))
  {
    hide NoMarkup;
    ClosingTag(tag);
    WellFormedConcat(skip, [Tag(tag)]);
    WellFormedConcat(skip + [Tag(tag)], inner);
    WellFormedConcat(skip + [Tag(tag)] + inner, [Tag("/" + tag)]);
  }

  lemma RenderWhole(skip: Doc, tag: string, inner: Doc)
    ensures Render(Whole(skip, tag, inner)) == Render(skip) + Open(tag) + Render(inner) + Open("/" + tag)
  {
    RenderConcat(skip + [Tag(tag)] + inner, [Tag("/" + tag)]);
    RenderConcat(skip + [Tag(tag)], inner);
    RenderConcat(skip, [Tag(tag)]);
    RenderOne(Tag(tag));
    RenderOne(Tag("/" + tag));
  }

  lemma RenderOne(t: Token)
    ensures Render([t]) == t.Render()
  {
    assert Render([t]) == t.Render() + "";
  }

  /** next_element from a token boundary returns the text of the first such element and the boundary
      behind it. */
  lemma ElementFound(before: string, skip: Doc, tag: string, inner: Doc, after: string)
    requires NoMarkup(tag) && WellFormed(skip) && WellFormed(inner)
    requires !Has(skip, tag) && !Has(inner, "/" + tag)
    ensures var whole := Render(Whole(skip, tag, inner));
      NextElement(before + whole + after, |before|, tag) == Some((Render(inner), |before| + |whole|))
  {
    hide Render, Find, Has, WellFormed, NoMarkup, Open, Whole;
    var a, b := Render(skip), Render(inner);
    var open, close := Open(tag), Open("/" + tag);
    RenderWhole(skip, tag, inner);
    ClosingTag(tag);
    Regroup(before, a, open, b, close, after);
    FindTag(before, skip, tag, b + close + after);
    FindTag(before + a + open, inner, "/" + tag, after);
  }

  lemma Regroup(p: string, a: string, b: string, c: string, d: string, q: string)
    ensures p + (a + b + c + d) + q == p + a + b + (c + d + q) == (p + a + b) + c + d + q
    ensures (p + (a + b + c + d) + q)[|p + a + b|..|p + a + b| + |c|] == c
  {
  }

  lemma ClosingTag(tag: string)
    requires NoMarkup(tag)
    ensures NoMarkup("/" + tag)
  {
  }

  lemma ElementMissing(before: string, rest: Doc, tag: string)
    requires NoMarkup(tag) && WellFormed(rest) && !Has(rest, tag)
    ensures NextElement(before + Render(rest), |before|, tag) == None
  {
    hide Find, Render, WellFormed, Has;
    var s := before + Render(rest);
    assert s == before + Render(rest) + "";
    FindPasses(before, rest, "", tag);
  }

  // Elements of other tags are passed over whole.
  lemma ElementPasses(before: string, skip: Doc, after: string, tag: string)
    requires NoMarkup(tag) && WellFormed(skip) && !Has(skip, tag)
    ensures var s := before + Render(skip) + after;
      NextElement(s, |before|, tag) == NextElement(s, |before| + |Render(skip)|, tag)
  {
    hide Find, Render, WellFormed, Has;
    FindPasses(before, skip, after, tag);
  }
}
