/** Pages that are not what a listing should be: a child that says no key, no size or no number fails the page,
    wherever it stands and whatever follows; and a listing is never partial.
 */
module BadPages {
  import opened Listing
  import opened Markup
  import opened Text
  import opened Xml
  import Query

  // The inside of an object that says no key, or no size, or a size that is not a number of 64 bits.
  datatype Fault =
    | NoKey(inner: Doc)
    | NoSize(inner: Doc)
    | BadSize(before: Doc, text: string, after: Doc)
  {
    predicate Valid() {
      && WellFormed(Inner()) && !Has(Inner(), "/Contents")
      && match this
         case NoKey(inner) => !Has(inner, "Key")
         case NoSize(inner) => !Has(inner, "Size")
         case BadSize(before, text, after) =>
           && WellFormed(before) && WellFormed(after) && IsText(text) && !Has(before, "Size")
           && (text == "" || !AllDigits(text) || DecimalValue(text) > 0xffff_ffff_ffff_ffff)
    }

    function Inner(): Doc {
      match this
      case NoKey(inner) => inner
      case NoSize(inner) => inner
      case BadSize(before, text, after) => Whole(before, "Size", [Chars(text)]) + after
    }
  }

  lemma FaultIsNoObject(f: Fault)
    requires f.Valid()
    ensures ObjectOf(Render(f.Inner())) == None
  {
    hide WellFormed, Has, Render, NextElement, U64Of;
    SomeTags();
    assert "" + Render(f.Inner()) == Render(f.Inner());
    match f
    case NoKey(inner) => ElementMissing("", inner, "Key");
    case NoSize(inner) => ElementMissing("", inner, "Size");
    case BadSize(before, text, after) => BadSizeFound(before, text, after);
  }

  lemma BadSizeFound(before: Doc, text: string, after: Doc)
    requires BadSize(before, text, after).Valid()
    ensures var size := NextElement(Render(BadSize(before, text, after).Inner()), 0, "Size");
      size.Some? && U64Of(size.value.0) == None
  {
    hide WellFormed, Has, Render, Whole, NextElement, U64Of;
    SomeTags();
    OneText(text);
    ElementFound("", before, "Size", [Chars(text)], Render(after));
    RenderConcat(Whole(before, "Size", [Chars(text)]), after);
    assert "" + Render(Whole(before, "Size", [Chars(text)])) + Render(after) ==
           Render(BadSize(before, text, after).Inner());
    NotU64(text);
  }

  lemma SomeTags()
    ensures NoMarkup("Key") && NoMarkup("Size") && NoMarkup("Contents") && "/" + "Size" == "/Size"
    ensures "/" + "Contents" == "/Contents"
  {
  }

  lemma OneText(text: string)
    requires IsText(text)
    ensures WellFormed([Chars(text)]) && (forall name :: !Has([Chars(text)], name)) && Render([Chars(text)]) == text
  {
    RenderOne(Chars(text));
  }

  lemma NotU64(text: string)
    requires text == "" || !AllDigits(text) || DecimalValue(text) > 0xffff_ffff_ffff_ffff
    ensures U64Of(text) == None
  {
  }

  // The elements of a page that says `items`, then an element with this inside, then any text.
  function PageWith(items: seq<Item>, tag: string, inner: Doc, rest: string): string {
    Render(RenderItems(items)) + (Render(Whole([], tag, inner)) + rest)
  }

  lemma SplitBefore(before: string, items: seq<Item>, rest: string)
    requires items != []
    ensures var head, more := Render(items[0].Render()), Render(RenderItems(items[1..]));
      before + (Render(RenderItems(items)) + rest) == before + head + (more + rest)
  {
    hide Render, Item.Render;
    var head, more := Render(items[0].Render()), Render(RenderItems(items[1..]));
    RenderConcat(items[0].Render(), RenderItems(items[1..]));
    assert Render(RenderItems(items)) == head + more;
    Regrouped(before, head, more, rest);
  }

  lemma Regrouped(a: string, b: string, c: string, d: string)
    ensures a + ((b + c) + d) == a + b + (c + d)
  {
  }

  lemma {:induction false} ObjectsFail(before: string, items: seq<Item>, f: Fault, rest: string)
    requires AllValid(items) && f.Valid()
    ensures ObjectsFrom(before + PageWith(items, "Contents", f.Inner(), rest), |before|) == None
    decreases items
  {
    hide NextElement, ObjectOf, Render, Whole, WellFormed, Has, Fault.Inner;
    hide Item.Valid, Item.Inner, Item.Render, IsTopLevel;
    TopLevelTags();
    var tail := Render(Whole([], "Contents", f.Inner())) + rest;
    if items == [] {
      NothingSkipped("Contents");
      SomeTags();
      NothingRenders();
      var bad := Render(Whole([], "Contents", f.Inner()));
      assert before + PageWith(items, "Contents", f.Inner(), rest) == before + bad + rest;
      ElementFound(before, [], "Contents", f.Inner(), rest);
      FaultIsNoObject(f);
    } else {
      var item, more := items[0], items[1..];
      var head := Render(item.Render());
      SplitBefore(before, items, tail);
      ObjectsFail(before + head, more, f, rest);
      var s := before + PageWith(items, "Contents", f.Inner(), rest);
      assert s == (before + head) + PageWith(more, "Contents", f.Inner(), rest);
      if item.Contents? {
        ChildIsFound(before, item, Render(RenderItems(more)) + tail);
      } else {
        ChildIsPassed(before, item, Render(RenderItems(more)) + tail, "Contents");
        ObjectsFromSame(s, |before|, |before| + |head|);
      }
    }
  }

  lemma NothingRenders()
    ensures Render(RenderItems([])) == ""
  {
  }

  /** A page fails when one of its objects says no key, no size or no number of 64 bits, whatever children stand in
      front of it and whatever text follows. */
  lemma BadObjectFails(items: seq<Item>, f: Fault, rest: string)
    requires AllValid(items) && f.Valid()
    ensures PageOf(PageWith(items, "Contents", f.Inner(), rest)) == None
  {
    hide PageWith, ObjectsFrom, PrefixesFrom, AllValid, Fault.Valid, TruncatedIn, XmlTag;
    ObjectsFail("", items, f, rest);
    var s := PageWith(items, "Contents", f.Inner(), rest);
    assert "" + s == s;
  }

  lemma {:induction false} PrefixesFail(before: string, items: seq<Item>, inner: Doc, rest: string)
    requires AllValid(items)
    requires WellFormed(inner) && !Has(inner, "/CommonPrefixes") && !Has(inner, "Prefix")
    ensures PrefixesFrom(before + PageWith(items, "CommonPrefixes", inner, rest), |before|) == None
    decreases items
  {
    hide NextElement, PrefixOf, Render, Whole, WellFormed, Has;
    hide Item.Valid, Item.Inner, Item.Render, IsTopLevel;
    TopLevelTags();
    var tail := Render(Whole([], "CommonPrefixes", inner)) + rest;
    if items == [] {
      NothingSkipped("CommonPrefixes");
      PrefixTags();
      NothingRenders();
      var bad := Render(Whole([], "CommonPrefixes", inner));
      assert before + PageWith(items, "CommonPrefixes", inner, rest) == before + bad + rest;
      ElementFound(before, [], "CommonPrefixes", inner, rest);
      NoPrefix(inner);
    } else {
      var item, more := items[0], items[1..];
      var head := Render(item.Render());
      SplitBefore(before, items, tail);
      PrefixesFail(before + head, more, inner, rest);
      var s := before + PageWith(items, "CommonPrefixes", inner, rest);
      assert s == (before + head) + PageWith(more, "CommonPrefixes", inner, rest);
      if item.CommonPrefix? {
        ChildIsFound(before, item, Render(RenderItems(more)) + tail);
      } else {
        ChildIsPassed(before, item, Render(RenderItems(more)) + tail, "CommonPrefixes");
        PrefixesFromSame(s, |before|, |before| + |head|);
      }
    }
  }

  lemma PrefixTags()
    ensures NoMarkup("Prefix") && NoMarkup("CommonPrefixes") && "/" + "CommonPrefixes" == "/CommonPrefixes"
  {
  }

  lemma NoPrefix(inner: Doc)
    requires WellFormed(inner) && !Has(inner, "Prefix")
    ensures PrefixOf(Render(inner)) == None
  {
    hide WellFormed, Has, NextElement;
    PrefixTags();
    assert "" + Render(inner) == Render(inner);
    ElementMissing("", inner, "Prefix");
  }

  /** So does one of its common prefixes without a prefix. */
  lemma BadPrefixFails(items: seq<Item>, inner: Doc, rest: string)
    requires AllValid(items)
    requires WellFormed(inner) && !Has(inner, "/CommonPrefixes") && !Has(inner, "Prefix")
    ensures PageOf(PageWith(items, "CommonPrefixes", inner, rest)) == None
  {
    hide PageWith, ObjectsFrom, PrefixesFrom, AllValid, WellFormed, Has, TruncatedIn, XmlTag;
    PrefixesFail("", items, inner, rest);
    var s := PageWith(items, "CommonPrefixes", inner, rest);
    assert "" + s == s;
  }

  // --- A listing is whole ---

  // The replies from the k-th request on, starting at `token`, are these pages: each but the last is truncated and
  // names a new token, with which the next is asked for, and the last is not truncated.
  predicate IsChain(serve: Server, prefix: string, delimiter: string, k: nat, token: string, pages: seq<Page>)
    decreases |pages|
  {
    && pages != []
    && var reply := serve(k, Query.ListQuery(prefix, delimiter, token));
    && reply.Body? && PageOf(reply.xml) == Some(pages[0])
    && if |pages| == 1 then !pages[0].truncated
       else pages[0].truncated && pages[0].token != token &&
            IsChain(serve, prefix, delimiter, k + 1, pages[0].token, pages[1..])
  }

  function Together(pages: seq<Page>): Listed {
    if pages == [] then Listed([], [])
    else
      var rest := Together(pages[1..]);
      Listed(pages[0].objects + rest.objects, pages[0].prefixes + rest.prefixes)
  }

  lemma OnePage(page: Page)
    ensures Together([page]) == Listed(page.objects, page.prefixes)
  {
    assert Together([page][1..]) == Listed([], []);
    assert page.objects + [] == page.objects && page.prefixes + [] == page.prefixes;
  }

  /** A listing that succeeds has followed the chain to its last page and returns all of it. */
  lemma {:induction false} ListingIsWhole(serve: Server, prefix: string, delimiter: string, k: nat, token: string,
                                          n: nat) returns (pages: seq<Page>)
    requires Ends(serve, prefix, delimiter, k, token, n)
    requires ListFrom(serve, prefix, delimiter, k, token, n).Some?
    ensures IsChain(serve, prefix, delimiter, k, token, pages)
    ensures ListFrom(serve, prefix, delimiter, k, token, n) == Some(Together(pages))
    decreases n
  {
    hide PageOf, Query.ListQuery, ListFrom, Ends;
    ListFromStep(serve, prefix, delimiter, k, token, n);
    var page := PageOf(serve(k, Query.ListQuery(prefix, delimiter, token)).xml).value;
    if !page.truncated {
      pages := [page];
      OnePage(page);
    } else {
      var rest := ListingIsWhole(serve, prefix, delimiter, k + 1, page.token, n - 1);
      pages := [page] + rest;
      assert pages[1..] == rest;
    }
  }

  /** And whenever there is such a chain the listing succeeds. */
  lemma {:induction false} ChainIsListed(serve: Server, prefix: string, delimiter: string, k: nat, token: string,
                                         pages: seq<Page>)
    requires IsChain(serve, prefix, delimiter, k, token, pages)
    ensures Lists(serve, prefix, delimiter, k, token, |pages|, Together(pages))
    decreases |pages|
  {
    hide PageOf, Query.ListQuery;
    if |pages| == 1 {
      assert pages == [pages[0]];
      OnePage(pages[0]);
    } else {
      ChainIsListed(serve, prefix, delimiter, k + 1, pages[0].token, pages[1..]);
    }
  }
}
