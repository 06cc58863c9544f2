/** ListObjectsV2: parsing one page, and following every continuation page. */
module Listing {
  import opened Text
  import opened Xml
  import opened Markup
  import Query

  datatype ObjectInfo = ObjectInfo(key: string, size: nat)

  // --- Parsing ---

  // The object described by the text inside one <Contents> element.
  function ObjectOf(body: string): Option<ObjectInfo> {
    var key := NextElement(body, 0, "Key");
    var size := NextElement(body, 0, "Size");
    if key.None? || size.None? || U64Of(size.value.0).None? then None
    else Some(ObjectInfo(Unescape(key.value.0), U64Of(size.value.0).value))
  }

  // Every object from `pos` on; None when one is malformed.
  function ObjectsFrom(xml: string, pos: nat): Option<seq<ObjectInfo>>
    requires pos <= |xml|
    decreases |xml| - pos
  {
    var e := NextElement(xml, pos, "Contents");
    if e.None? then Some([])
    else
      var first := ObjectOf(e.value.0);
      var rest := ObjectsFrom(xml, e.value.1);
      if first.None? || rest.None? then None else Some([first.value] + rest.value)
  }

  function PrefixOf(body: string): Option<string> {
    var p := NextElement(body, 0, "Prefix");
    if p.None? then None else Some(Unescape(p.value.0))
  }

  function PrefixesFrom(xml: string, pos: nat): Option<seq<string>>
    requires pos <= |xml|
    decreases |xml| - pos
  {
    var e := NextElement(xml, pos, "CommonPrefixes");
    if e.None? then Some([])
    else
      var first := PrefixOf(e.value.0);
      var rest := PrefixesFrom(xml, e.value.1);
      if first.None? || rest.None? then None else Some([first.value] + rest.value)
  }

  function TruncatedIn(xml: string): bool {
    var flag := NextElement(xml, 0, "IsTruncated");
    flag.Some? && flag.value.0 == "true"
  }

  datatype Page = Page(objects: seq<ObjectInfo>, prefixes: seq<string>, truncated: bool, token: string)

  // What a page says; None for a malformed one.
  function PageOf(xml: string): Option<Page> {
    var objects, prefixes := ObjectsFrom(xml, 0), PrefixesFrom(xml, 0);
    var truncated, token := TruncatedIn(xml), XmlTag(xml, "NextContinuationToken");
    if objects.None? || prefixes.None? || (truncated && token == "") then None
    else Some(Page(objects.value, prefixes.value, truncated, token))
  }

  method ParseObject(body: string) returns (r: Option<ObjectInfo>)
    ensures r == ObjectOf(body)
  {
    var key := NextElement(body, 0, "Key");
    if key.None? {
      return None;
    }
    var text := NextElement(body, 0, "Size");
    if text.None? {
      return None;
    }
    var size := ParseU64(text.value.0);
    if size.None? {
      return None;
    }
    var name := XmlUnescape(key.value.0);
    r := Some(ObjectInfo(name, size.value));
  }

  /** Appends what the page says to what earlier pages said. A malformed page fails, leaving a partial
      result that the caller drops. */
  method ParseListPage(xml: string, objects0: seq<ObjectInfo>, prefixes0: seq<string>)
    returns (ok: bool, objects: seq<ObjectInfo>, prefixes: seq<string>, truncated: bool, token: string)
    ensures ok <==> PageOf(xml).Some?
    ensures ok ==> var page := PageOf(xml).value;
      objects == objects0 + page.objects && prefixes == prefixes0 + page.prefixes &&
      truncated == page.truncated && token == page.token
  {
    hide ObjectOf, PrefixOf, TruncatedIn, XmlTag, NextElement, Unescape;
    objects, prefixes, truncated, token := objects0, prefixes0, false, "";
    var pos := 0;
    var e := NextElement(xml, pos, "Contents");
    ghost var all := ObjectsFrom(xml, 0);
    while e.Some?
      invariant pos <= |xml| && e == NextElement(xml, pos, "Contents")
      invariant all.None? <==> ObjectsFrom(xml, pos).None?
      invariant all.Some? ==> objects0 + all.value == objects + ObjectsFrom(xml, pos).value
      decreases |xml| - pos
    {
      var o := ParseObject(e.value.0);
      if o.None? {
        return false, objects, prefixes, truncated, token;
      }
      objects := objects + [o.value];
      pos := e.value.1;
      e := NextElement(xml, pos, "Contents");
    }
    pos := 0;
    e := NextElement(xml, pos, "CommonPrefixes");
    ghost var allPrefixes := PrefixesFrom(xml, 0);
    while e.Some?
      invariant pos <= |xml| && e == NextElement(xml, pos, "CommonPrefixes")
      invariant allPrefixes.None? <==> PrefixesFrom(xml, pos).None?
      invariant allPrefixes.Some? ==> prefixes0 + allPrefixes.value == prefixes + PrefixesFrom(xml, pos).value
      decreases |xml| - pos
    {
      var p := PrefixOf(e.value.0);
      if p.None? {
        return false, objects, prefixes, truncated, token;
      }
      prefixes := prefixes + [p.value];
      pos := e.value.1;
      e := NextElement(xml, pos, "CommonPrefixes");
    }
    truncated := TruncatedIn(xml);
    token := XmlTag(xml, "NextContinuationToken");
    ok := !(truncated && token == "");
  }

  // --- A rendered page ---

  // One child of <ListBucketResult>. Real pages carry more than the parser reads: tokens around the
  // key and the size of an object (ETag, LastModified, ...), and other children. Keys, prefixes and tokens
  // are written in any conforming way.
  datatype Item =
    | Contents(before: Doc, key: seq<Piece>, between: Doc, size: nat, after: Doc)
    | CommonPrefix(before: Doc, prefix: seq<Piece>, after: Doc)
    | IsTruncated(flag: bool)
    | NextToken(token: seq<Piece>)
    | Other(doc: Doc)
  {
    // A child says each thing once: what surrounds the key and the size is none of the elements read.
    predicate Valid() {
      match this
      case Contents(before, key, between, size, after) =>
        Inert(before) && Conforming(key) && Inert(between) && size <= 0xffff_ffff_ffff_ffff && Inert(after)
      case CommonPrefix(before, prefix, after) => Inert(before) && Conforming(prefix) && Inert(after)
      case IsTruncated(_) => true
      case NextToken(token) => Conforming(token)
      case Other(doc) => WellFormed(doc) && forall t <- doc :: t.Tag? ==> !IsTopLevel(t.name)
    }

    function OwnTag(): string {
      if Contents? then "Contents" else if CommonPrefix? then "CommonPrefixes"
      else if IsTruncated? then "IsTruncated" else if NextToken? then "NextContinuationToken" else ""
    }

    function Render(): Doc {
      if Other? then doc else Whole([], OwnTag(), Inner())
    }

    function Inner(): Doc {
      match this
      case Contents(before, key, between, size, after) =>
        Whole(before, "Key", WrittenText(key)) + (Whole(between, "Size", DecimalText(size)) + after)
      case CommonPrefix(before, prefix, after) => Whole(before, "Prefix", WrittenText(prefix)) + after
      case IsTruncated(flag) => FlagText(flag)
      case NextToken(token) => WrittenText(token)
      case Other(_) => []
    }
  }

  function FlagText(flag: bool): (r: Doc)
    ensures |r| == 1 && WellFormed(r) && forall name :: !Has(r, name)
  {
    [Chars(if flag then "true" else "false")]
  }

  predicate IsTopLevel(name: string) {
    name == "Contents" || name == "CommonPrefixes" || name == "IsTruncated" || name == "NextContinuationToken"
  }

  predicate IsRead(name: string) {
    IsTopLevel(name) || name == "/Contents" || name == "/CommonPrefixes" ||
    name == "Key" || name == "Size" || name == "Prefix"
  }

  predicate Inert(doc: Doc) {
    WellFormed(doc) && forall t <- doc :: t.Tag? ==> !IsRead(t.name)
  }

  function RenderItems(items: seq<Item>): Doc {
    if items == [] then [] else items[0].Render() + RenderItems(items[1..])
  }

  predicate AllValid(items: seq<Item>) {
    forall item <- items :: item.Valid()
  }

  // What the children say.
  function Objects(items: seq<Item>): seq<ObjectInfo> {
    if items == [] then []
    else (if items[0].Contents? then [ObjectInfo(Meant(items[0].key), items[0].size)] else []) + Objects(items[1..])
  }

  function Prefixes(items: seq<Item>): seq<string> {
    if items == [] then []
    else (if items[0].CommonPrefix? then [Meant(items[0].prefix)] else []) + Prefixes(items[1..])
  }

  function Truncated(items: seq<Item>): bool {
    items != [] && if items[0].IsTruncated? then items[0].flag else Truncated(items[1..])
  }

  function Token(items: seq<Item>): string {
    if items == [] then "" else if items[0].NextToken? then Meant(items[0].token) else Token(items[1..])
  }

  lemma FlagRenders(flag: bool)
    ensures Render(FlagText(flag)) == if flag then "true" else "false"
  {
    RenderOne(Chars(if flag then "true" else "false"));
  }

  lemma ElementRenders(tag: string, inner: Doc)
    ensures Render(Whole([], tag, inner)) == Open(tag) + Render(inner) + Open("/" + tag)
  {
    hide Whole, Open;
    RenderWhole([], tag, inner);
  }

  lemma ContentsOnTheWire(before: Doc, key: seq<Piece>, between: Doc, size: nat, after: Doc)
    ensures Render(Contents(before, key, between, size, after).Render()) ==
            "<Contents>" + Render(before) + "<Key>" + Written(key) + "</Key>" +
            Render(between) + "<Size>" + Decimal(size) + "</Size>" + Render(after) + "</Contents>"
  {
    hide Whole, Render, Written, Decimal, WrittenText, DecimalText;
    var item := Contents(before, key, between, size, after);
    var k, s := Whole(before, "Key", WrittenText(key)), Whole(between, "Size", DecimalText(size));
    ElementRenders("Contents", item.Inner());
    RenderConcat(k, s + after);
    RenderConcat(s, after);
    RenderWhole(before, "Key", WrittenText(key));
    RenderWhole(between, "Size", DecimalText(size));
    WrittenRenders(key);
    NumberRenders(size);
    assert Open("Contents") == "<Contents>" && Open("/" + "Contents") == "</Contents>";
    assert Open("Key") == "<Key>" && Open("/" + "Key") == "</Key>";
    assert Open("Size") == "<Size>" && Open("/" + "Size") == "</Size>";
    hide Open;
    Gathered("<Contents>", Render(before), "<Key>", Written(key), "</Key>",
             Render(between), "<Size>", Decimal(size), "</Size>", Render(after), "</Contents>");
  }

  lemma Gathered(a: string, b: string, c: string, d: string, e: string,
                 f: string, g: string, h: string, i: string, j: string, k: string)
    ensures a + ((b + c + d + e) + ((f + g + h + i) + j)) + k == a + b + c + d + e + f + g + h + i + j + k
  {
  }

  lemma PrefixOnTheWire(before: Doc, prefix: seq<Piece>, after: Doc)
    ensures Render(CommonPrefix(before, prefix, after).Render()) ==
            "<CommonPrefixes>" + Render(before) + "<Prefix>" + Written(prefix) + "</Prefix>" +
            Render(after) + "</CommonPrefixes>"
  {
    hide Whole, Render, Written, WrittenText;
    var item := CommonPrefix(before, prefix, after);
    ElementRenders("CommonPrefixes", item.Inner());
    RenderConcat(Whole(before, "Prefix", WrittenText(prefix)), after);
    RenderWhole(before, "Prefix", WrittenText(prefix));
    WrittenRenders(prefix);
    assert Open("CommonPrefixes") == "<CommonPrefixes>" && Open("/" + "CommonPrefixes") == "</CommonPrefixes>";
    assert Open("Prefix") == "<Prefix>" && Open("/" + "Prefix") == "</Prefix>";
  }

  lemma FlagOnTheWire(flag: bool)
    ensures Render(IsTruncated(flag).Render()) ==
            "<IsTruncated>" + (if flag then "true" else "false") + "</IsTruncated>"
  {
    hide Whole, Render, FlagText;
    ElementRenders("IsTruncated", FlagText(flag));
    FlagRenders(flag);
    assert Open("IsTruncated") == "<IsTruncated>" && Open("/" + "IsTruncated") == "</IsTruncated>";
  }

  lemma TokenOnTheWire(token: seq<Piece>)
    ensures Render(NextToken(token).Render()) ==
            "<NextContinuationToken>" + Written(token) + "</NextContinuationToken>"
  {
    hide Whole, Render, Written, WrittenText;
    ElementRenders("NextContinuationToken", WrittenText(token));
    WrittenRenders(token);
    TokenOpens();
    TokenCloses();
    hide Open;
  }

  lemma TokenOpens()
    ensures Open("NextContinuationToken") == "<NextContinuationToken>"
  {
  }

  lemma TokenCloses()
    ensures Open("/" + "NextContinuationToken") == "</NextContinuationToken>"
  {
  }

  // --- Parsing a rendered page gives back what it says ---

  lemma InnerWellFormed(item: Item)
    requires item.Valid()
    ensures WellFormed(item.Inner())
  {
    hide WellFormed, Whole, Written, Decimal;
    match item
    case Contents(before, key, between, size, after) =>
      WholeWellFormed(before, "Key", WrittenText(key));
      WholeWellFormed(between, "Size", DecimalText(size));
      WellFormedConcat(Whole(between, "Size", DecimalText(size)), after);
      WellFormedConcat(Whole(before, "Key", WrittenText(key)), Whole(between, "Size", DecimalText(size)) + after);
    case CommonPrefix(before, prefix, after) =>
      WholeWellFormed(before, "Prefix", WrittenText(prefix));
      WellFormedConcat(Whole(before, "Prefix", WrittenText(prefix)), after);
    case IsTruncated(flag) =>
    case NextToken(token) =>
    case Other(_) =>
      NothingSkipped("");
  }

  // None of the tags the parser looks for, beyond Key, Size and Prefix, occurs inside a child.
  lemma InnerLacks(item: Item, name: string)
    requires item.Valid()
    requires IsTopLevel(name) || name == "/Contents" || name == "/CommonPrefixes"
    ensures !Has(item.Inner(), name)
  {
    hide Whole, WellFormed;
    match item
    case Contents(before, key, between, size, after) =>
      var k, s := WrittenText(key), DecimalText(size);
      HasInWhole(before, "Key", k, name);
      HasInWhole(between, "Size", s, name);
      HasConcat(Whole(between, "Size", s), after, name);
      HasConcat(Whole(before, "Key", k), Whole(between, "Size", s) + after, name);
    case CommonPrefix(before, prefix, after) =>
      HasInWhole(before, "Prefix", WrittenText(prefix), name);
      HasConcat(Whole(before, "Prefix", WrittenText(prefix)), after, name);
    case IsTruncated(_) =>
    case NextToken(_) =>
    case Other(_) =>
  }

  // From the boundary in front of it, a top-level element is found.
  lemma ChildIsFound(before: string, item: Item, after: string)
    requires item.Valid() && !item.Other?
    ensures var head := Render(item.Render());
      NextElement(before + head + after, |before|, item.OwnTag()) ==
      Some((Render(item.Inner()), |before| + |head|))
  {
    hide NextElement, Whole, WellFormed, Has, Render, Item.Inner, Item.Valid;
    InnerWellFormed(item);
    ClosingTagAbsent(item);
    NothingSkipped(item.OwnTag());
    ElementFound(before, [], item.OwnTag(), item.Inner(), after);
  }

  // Searching for a top-level element passes over every child that is another.
  lemma ChildIsPassed(before: string, item: Item, after: string, tag: string)
    requires item.Valid() && IsTopLevel(tag) && item.OwnTag() != tag
    ensures var s := before + Render(item.Render()) + after;
      NextElement(s, |before|, tag) == NextElement(s, |before| + |Render(item.Render())|, tag)
  {
    hide NextElement, WellFormed, Has, Render, NoMarkup, IsTopLevel, Item.Render, Item.Valid, Item.OwnTag;
    ChildLacks(item, tag);
    ElementPasses(before, item.Render(), after, tag);
  }

  lemma ChildLacks(item: Item, tag: string)
    requires item.Valid() && IsTopLevel(tag) && item.OwnTag() != tag
    ensures WellFormed(item.Render()) && !Has(item.Render(), tag) && NoMarkup(tag)
  {
    hide Whole, WellFormed, Has, Item.Inner, Item.Valid;
    if item.Other? {
      OtherLacks(item, tag);
    } else {
      InnerWellFormed(item);
      InnerLacks(item, tag);
      NothingSkipped(tag);
      HasInWhole([], item.OwnTag(), item.Inner(), tag);
      assert tag[0] != '/';
      WholeWellFormed([], item.OwnTag(), item.Inner());
    }
  }

  lemma NothingSkipped(name: string)
    ensures WellFormed([]) && !Has([], name)
  {
  }

  lemma OtherLacks(item: Item, tag: string)
    requires item.Valid() && item.Other? && IsTopLevel(tag)
    ensures WellFormed(item.Render()) && !Has(item.Render(), tag)
  {
  }

  lemma ClosingTagAbsent(item: Item)
    requires item.Valid() && !item.Other?
    ensures !Has(item.Inner(), "/" + item.OwnTag())
  {
    hide Whole;
    if item.Contents? {
      assert "/" + "Contents" == "/Contents";
      InnerLacks(item, "/Contents");
    } else if item.CommonPrefix? {
      assert "/" + "CommonPrefixes" == "/CommonPrefixes";
      InnerLacks(item, "/CommonPrefixes");
    }
  }

  // The element at the head of a body is found there.
  lemma FoundAtHead(skip: Doc, tag: string, inner: Doc, after: Doc)
    requires NoMarkup(tag) && Inert(skip) && IsRead(tag) && WellFormed(inner) && !Has(inner, "/" + tag)
    ensures NextElement(Render(Whole(skip, tag, inner) + after), 0, tag) ==
            Some((Render(inner), |Render(Whole(skip, tag, inner))|))
  {
    hide NextElement, Whole, Render;
    InertLacks(skip, tag);
    ElementFound("", skip, tag, inner, Render(after));
    RenderConcat(Whole(skip, tag, inner), after);
    assert "" + Render(Whole(skip, tag, inner)) + Render(after) == Render(Whole(skip, tag, inner) + after);
  }

  // <Size> is not in the part of an object that holds its key.
  lemma SizeReadsBack(item: Item)
    requires item.Valid() && item.Contents?
    ensures NextElement(Render(item.Inner()), 0, "Size").Some?
    ensures NextElement(Render(item.Inner()), 0, "Size").value.0 == Decimal(item.size)
  {
    hide NextElement, Whole, WellFormed, Decimal, Render, Inert, Open, WrittenText, DecimalText;
    KeyPartLacksSize(item);
    FoundBehind(Whole(item.before, "Key", WrittenText(item.key)), item.between, "Size",
                DecimalText(item.size), item.after);
    NumberRenders(item.size);
  }

  lemma FoundBehind(k: Doc, skip: Doc, tag: string, inner: Doc, after: Doc)
    requires NoMarkup(tag) && Inert(skip) && IsRead(tag) && WellFormed(inner) && !Has(inner, "/" + tag)
    requires WellFormed(k) && !Has(k, tag)
    ensures var e := NextElement(Render(k + (Whole(skip, tag, inner) + after)), 0, tag);
      e.Some? && e.value.0 == Render(inner)
  {
    hide NextElement, Whole, WellFormed, Has, Render, Inert, IsRead, NoMarkup;
    var w := Whole(skip, tag, inner);
    InertLacks(skip, tag);
    RenderConcat(k, w + after);
    RenderConcat(w, after);
    Assoc(Render(k), Render(w), Render(after));
    ElementPasses("", k, Render(w + after), tag);
    assert "" + Render(k) == Render(k);
    ElementFound(Render(k), skip, tag, inner, Render(after));
  }

  lemma ObjectReadsBack(item: Item)
    requires item.Valid() && item.Contents?
    ensures ObjectOf(Render(item.Inner())) == Some(ObjectInfo(Meant(item.key), item.size))
  {
    hide NextElement, Unescape, U64Of, Whole, Has, WellFormed, Written, Decimal, Inert;
    FoundAtHead(item.before, "Key", WrittenText(item.key),
                Whole(item.between, "Size", DecimalText(item.size)) + item.after);
    WrittenRenders(item.key);
    UnescapeReads(item.key);
    SizeReadsBack(item);
    U64OfDecimal(item.size);
  }

  lemma InertLacks(doc: Doc, name: string)
    requires Inert(doc) && IsRead(name)
    ensures WellFormed(doc) && !Has(doc, name)
  {
  }

  lemma KeyPartLacksSize(item: Item)
    requires item.Valid() && item.Contents?
    ensures var k := Whole(item.before, "Key", WrittenText(item.key));
      WellFormed(k) && !Has(k, "Size")
  {
    hide Whole, WellFormed;
    InertLacks(item.before, "Size");
    assert ("/" + "Key")[0] != "Size"[0];
    WholeWellFormed(item.before, "Key", WrittenText(item.key));
    HasInWhole(item.before, "Key", WrittenText(item.key), "Size");
  }

  lemma PrefixReadsBack(item: Item)
    requires item.Valid() && item.CommonPrefix?
    ensures PrefixOf(Render(item.Inner())) == Some(Meant(item.prefix))
  {
    hide NextElement, Unescape, Whole, Has, WellFormed, Written, Inert;
    FoundAtHead(item.before, "Prefix", WrittenText(item.prefix), item.after);
    WrittenRenders(item.prefix);
    UnescapeReads(item.prefix);
  }

  // What is found decides what is parsed.
  lemma ObjectsFromSame(xml: string, p: nat, q: nat)
    requires p <= |xml| && q <= |xml| && NextElement(xml, p, "Contents") == NextElement(xml, q, "Contents")
    ensures ObjectsFrom(xml, p) == ObjectsFrom(xml, q)
  {
    hide NextElement, ObjectOf;
  }

  lemma PrefixesFromSame(xml: string, p: nat, q: nat)
    requires p <= |xml| && q <= |xml|
    requires NextElement(xml, p, "CommonPrefixes") == NextElement(xml, q, "CommonPrefixes")
    ensures PrefixesFrom(xml, p) == PrefixesFrom(xml, q)
  {
    hide NextElement, PrefixOf;
  }

  // The children parse one by one.
  lemma {:induction false} ObjectsReadBack(before: string, items: seq<Item>)
    requires AllValid(items)
    ensures ObjectsFrom(before + Render(RenderItems(items)), |before|) == Some(Objects(items))
    decreases items
  {
    hide NextElement, ObjectOf, Render, Item.Valid, Item.Inner, Item.Render, IsTopLevel;
    var s := before + Render(RenderItems(items));
    TopLevelTags();
    if items == [] {
      NothingLeft(before, "Contents");
    } else {
      var item, more := items[0], items[1..];
      SplitItems(before, items);
      ObjectsReadBack(before + Render(item.Render()), more);
      if item.Contents? {
        ChildIsFound(before, item, Render(RenderItems(more)));
        ObjectReadsBack(item);
      } else {
        ChildIsPassed(before, item, Render(RenderItems(more)), "Contents");
        assert Objects(items) == Objects(more);
        ObjectsFromSame(s, |before|, |before| + |Render(item.Render())|);
      }
    }
  }

  lemma SplitItems(before: string, items: seq<Item>)
    requires items != []
    ensures var head := Render(items[0].Render());
      before + Render(RenderItems(items)) == before + head + Render(RenderItems(items[1..]))
  {
    RenderConcat(items[0].Render(), RenderItems(items[1..]));
  }

  lemma TopLevelTags()
    ensures IsTopLevel("Contents") && IsTopLevel("CommonPrefixes")
    ensures IsTopLevel("IsTruncated") && IsTopLevel("NextContinuationToken")
  {
  }

  lemma NothingLeft(before: string, tag: string)
    requires NoMarkup(tag)
    ensures NextElement(before + Render(RenderItems([])), |before|, tag) == None
  {
    hide NextElement;
    ElementMissing(before, [], tag);
  }

  lemma {:induction false} PrefixesReadBack(before: string, items: seq<Item>)
    requires AllValid(items)
    ensures PrefixesFrom(before + Render(RenderItems(items)), |before|) == Some(Prefixes(items))
    decreases items
  {
    hide NextElement, PrefixOf, Render, Item.Valid, Item.Inner, Item.Render, IsTopLevel;
    var s := before + Render(RenderItems(items));
    TopLevelTags();
    if items == [] {
      NothingLeft(before, "CommonPrefixes");
    } else {
      var item, more := items[0], items[1..];
      SplitItems(before, items);
      PrefixesReadBack(before + Render(item.Render()), more);
      if item.CommonPrefix? {
        ChildIsFound(before, item, Render(RenderItems(more)));
        PrefixReadsBack(item);
      } else {
        ChildIsPassed(before, item, Render(RenderItems(more)), "CommonPrefixes");
        assert Prefixes(items) == Prefixes(more);
        PrefixesFromSame(s, |before|, |before| + |Render(item.Render())|);
      }
    }
  }

  lemma {:induction false} FlagReadsBack(before: string, items: seq<Item>)
    requires AllValid(items)
    ensures var flag := NextElement(before + Render(RenderItems(items)), |before|, "IsTruncated");
      Truncated(items) <==> flag.Some? && flag.value.0 == "true"
    decreases items
  {
    hide NextElement, Render, Item.Valid, Item.Render, IsTopLevel;
    TopLevelTags();
    if items == [] {
      NothingLeft(before, "IsTruncated");
    } else {
      var item, more := items[0], items[1..];
      SplitItems(before, items);
      if item.IsTruncated? {
        ChildIsFound(before, item, Render(RenderItems(more)));
        FlagRenders(item.flag);
      } else {
        ChildIsPassed(before, item, Render(RenderItems(more)), "IsTruncated");
        FlagReadsBack(before + Render(item.Render()), more);
      }
    }
  }

  lemma TokenConforms(item: Item)
    requires item.Valid() && item.NextToken?
    ensures Conforming(item.token)
  {
  }

  lemma {:induction false} TokenReadsBack(before: string, items: seq<Item>)
    requires AllValid(items)
    ensures var e := NextElement(before + Render(RenderItems(items)), |before|, "NextContinuationToken");
      Token(items) == if e.None? then "" else Unescape(e.value.0)
    decreases items
  {
    hide NextElement, Render, Unescape, Written, Item.Valid, Item.Render, IsTopLevel;
    TopLevelTags();
    if items == [] {
      NothingLeft(before, "NextContinuationToken");
    } else {
      var item, more := items[0], items[1..];
      SplitItems(before, items);
      if item.NextToken? {
        ChildIsFound(before, item, Render(RenderItems(more)));
        WrittenRenders(item.token);
        TokenConforms(item);
        UnescapeReads(item.token);
      } else {
        ChildIsPassed(before, item, Render(RenderItems(more)), "NextContinuationToken");
        TokenReadsBack(before + Render(item.Render()), more);
      }
    }
  }

  /** Parsing a rendered page returns exactly what its children say, in whatever way they are written: every
      key byte for byte, every size, every prefix, in order. It fails exactly when the page is truncated and
      names no token. */
  lemma PageReadsBack(items: seq<Item>)
    requires AllValid(items)
    ensures PageOf(Render(RenderItems(items))) ==
      if Truncated(items) && Token(items) == "" then None
      else Some(Page(Objects(items), Prefixes(items), Truncated(items), Token(items)))
  {
    hide NextElement, Render, RenderItems, ObjectsFrom, PrefixesFrom, Unescape, AllValid;
    var s := Render(RenderItems(items));
    assert "" + s == s;
    ObjectsReadBack("", items);
    PrefixesReadBack("", items);
    FlagReadsBack("", items);
    TokenReadsBack("", items);
  }

  // --- Following the continuation pages ---

  // The outcome of the request for one page: no usable reply, or the body of a 200.
  datatype PageReply = Failed | Body(xml: string)

  // The server: what it answers to the k-th page request, given its query.
  type Server = (nat, string) -> PageReply

  datatype Listed = Listed(objects: seq<ObjectInfo>, prefixes: seq<string>)

  // The chain of pages from the k-th on, starting at `token`, is over after at most n: a request fails, a page
  // is malformed or the last one, or it names the token it was asked for with.
  ghost predicate Ends(serve: Server, prefix: string, delimiter: string, k: nat, token: string, n: nat)
    decreases n
  {
    n > 0 &&
    var reply := serve(k, Query.ListQuery(prefix, delimiter, token));
    reply.Failed? || PageOf(reply.xml).None? ||
    var page := PageOf(reply.xml).value;
    !page.truncated || page.token == token || Ends(serve, prefix, delimiter, k + 1, page.token, n - 1)
  }

  // What the pages from the k-th on, starting at `token`, list together; None when one of them fails.
  ghost function ListFrom(serve: Server, prefix: string, delimiter: string, k: nat, token: string,
                          n: nat): Option<Listed>
    requires Ends(serve, prefix, delimiter, k, token, n)
    decreases n
  {
    hide PageOf, Query.ListQuery;
    var reply := serve(k, Query.ListQuery(prefix, delimiter, token));
    if reply.Failed? || PageOf(reply.xml).None? then None
    else
      var page := PageOf(reply.xml).value;
      if !page.truncated then Some(Listed(page.objects, page.prefixes))
      else if page.token == token then None
      else
        var rest := ListFrom(serve, prefix, delimiter, k + 1, page.token, n - 1);
        if rest.None? then None
        else Some(Listed(page.objects + rest.value.objects, page.prefixes + rest.value.prefixes))
  }

  // The chain ends after at most n pages, and together they list `all`.
  ghost predicate Lists(serve: Server, prefix: string, delimiter: string, k: nat, token: string, n: nat, all: Listed) {
    Ends(serve, prefix, delimiter, k, token, n) && ListFrom(serve, prefix, delimiter, k, token, n) == Some(all)
  }

  // One page, and what follows it.
  lemma ListFromStep(serve: Server, prefix: string, delimiter: string, k: nat, token: string, n: nat)
    requires Ends(serve, prefix, delimiter, k, token, n)
    ensures n > 0
    ensures var reply := serve(k, Query.ListQuery(prefix, delimiter, token));
      var list := ListFrom(serve, prefix, delimiter, k, token, n);
      if reply.Failed? || PageOf(reply.xml).None? then list.None?
      else
        var page := PageOf(reply.xml).value;
        if !page.truncated then list == Some(Listed(page.objects, page.prefixes))
        else if page.token == token then list.None?
        else
          Ends(serve, prefix, delimiter, k + 1, page.token, n - 1) &&
          var rest := ListFrom(serve, prefix, delimiter, k + 1, page.token, n - 1);
          list == if rest.None? then None
                  else Some(Listed(page.objects + rest.value.objects, page.prefixes + rest.value.prefixes))
  {
    hide PageOf, Query.ListQuery;
  }

  /** Follows every continuation page, over any server whose chain of pages ends; over the others the loop
      goes on for ever. On success the caller's vectors become the concatenation of all pages; on any failure
      they are left as they were. */
  method List(serve: Server, prefix: string, delimiter: string, ghost n: nat,
              objects0: seq<ObjectInfo>, prefixes0: seq<string>)
    returns (ok: bool, objects: seq<ObjectInfo>, prefixes: seq<string>)
    requires Ends(serve, prefix, delimiter, 0, "", n)
    ensures ok <==> ListFrom(serve, prefix, delimiter, 0, "", n).Some?
    ensures ok ==> Listed(objects, prefixes) == ListFrom(serve, prefix, delimiter, 0, "", n).value
    ensures !ok ==> objects == objects0 && prefixes == prefixes0
  {
    hide PageOf, Query.ListQuery, ListFrom, Ends;
    ok, objects, prefixes := false, objects0, prefixes0;
    var found, common: seq<string>, token, k := [], [], "", 0;
    ghost var all, left := ListFrom(serve, prefix, delimiter, 0, "", n), n;
    while true
      invariant Ends(serve, prefix, delimiter, k, token, left)
      invariant var rest := ListFrom(serve, prefix, delimiter, k, token, left);
        (all.None? <==> rest.None?) &&
        (all.Some? ==> all.value == Listed(found + rest.value.objects, common + rest.value.prefixes))
      decreases left
    {
      ListFromStep(serve, prefix, delimiter, k, token, left);
      var reply := serve(k, Query.ListQuery(prefix, delimiter, token));
      if reply.Failed? {
        return;
      }
      var parsed, os, ps, truncated, next := ParseListPage(reply.xml, found, common);
      if !parsed {
        return;
      }
      found, common, k := os, ps, k + 1;
      if !truncated {
        break;
      }
      if next == token {
        return;
      }
      token, left := next, left - 1;
    }
    ok, objects, prefixes := true, found, common;
  }

  // Every truncated page names a token that ranks lower for the next request, or repeats the one it was given.
  ghost predicate Advances(serve: Server, prefix: string, delimiter: string, rank: (nat, string) -> nat) {
    forall k: nat, token: string ::
      var reply := serve(k, Query.ListQuery(prefix, delimiter, token));
      reply.Body? && PageOf(reply.xml).Some? && PageOf(reply.xml).value.truncated ==>
        var next := PageOf(reply.xml).value.token;
        next == token || rank(k + 1, next) < rank(k, token)
  }

  /** The chain of a server that advances ends. */
  lemma {:induction false} AdvancingEnds(serve: Server, prefix: string, delimiter: string,
                                         rank: (nat, string) -> nat, k: nat, token: string)
    requires Advances(serve, prefix, delimiter, rank)
    ensures exists n: nat :: Ends(serve, prefix, delimiter, k, token, n)
    decreases rank(k, token)
  {
    hide PageOf, Query.ListQuery;
    var reply := serve(k, Query.ListQuery(prefix, delimiter, token));
    if reply.Body? && PageOf(reply.xml).Some? && PageOf(reply.xml).value.truncated &&
       PageOf(reply.xml).value.token != token {
      AdvancingEnds(serve, prefix, delimiter, rank, k + 1, PageOf(reply.xml).value.token);
      var n: nat :| Ends(serve, prefix, delimiter, k + 1, PageOf(reply.xml).value.token, n);
      assert Ends(serve, prefix, delimiter, k, token, n + 1);
    } else {
      assert Ends(serve, prefix, delimiter, k, token, 1);
    }
  }

  // A page that lists nothing and names a token.
  function TurningPage(token: string): seq<Item> {
    [IsTruncated(true), NextToken(EscapePieces(token))]
  }

  lemma TurningPageReadsBack(token: string)
    requires token != ""
    ensures PageOf(Render(RenderItems(TurningPage(token)))) == Some(Page([], [], true, token))
  {
    hide PageOf, Render, RenderItems;
    var items := TurningPage(token);
    EscapeIsOneWay(token);
    PageReadsBack(items);
    var rest := [NextToken(EscapePieces(token))];
    assert items[1..] == rest && rest[1..] == [];
    assert Objects(rest) == [] && Prefixes(rest) == [] && Token(rest) == token;
    assert Objects(items) == [] && Prefixes(items) == [] && Token(items) == token && Truncated(items);
  }

  // A server that names two tokens in turn.
  function TurningServer(a: string, b: string): Server {
    (k: nat, query: string) => Body(Render(RenderItems(TurningPage(if k % 2 == 0 then a else b))))
  }

  /** Only an immediately repeated token stops the loop: over a server that names two tokens in turn it never
      ends. */
  lemma {:induction false} TurningNeverEnds(a: string, b: string, prefix: string, delimiter: string,
                                            k: nat, token: string, n: nat)
    requires a != "" && b != "" && a != b
    requires token == if k == 0 then "" else if k % 2 == 1 then a else b
    ensures !Ends(TurningServer(a, b), prefix, delimiter, k, token, n)
    decreases n
  {
    hide PageOf, Render, RenderItems, TurningPage, Query.ListQuery;
    var next := if k % 2 == 0 then a else b;
    TurningPageReadsBack(next);
    if n > 0 {
      TurningNeverEnds(a, b, prefix, delimiter, k + 1, next, n - 1);
    }
  }

  // --- The whole listing ---

  function AllObjects(pages: seq<seq<Item>>): seq<ObjectInfo> {
    if pages == [] then [] else Objects(pages[0]) + AllObjects(pages[1..])
  }

  function AllPrefixes(pages: seq<seq<Item>>): seq<string> {
    if pages == [] then [] else Prefixes(pages[0]) + AllPrefixes(pages[1..])
  }

  // The token that page `i` of a chain is asked for with.
  function TokenFor(pages: seq<seq<Item>>, i: nat): string
    requires i <= |pages|
  {
    if i == 0 then "" else Token(pages[i - 1])
  }

  // The server holds a listing in `pages`: it renders page `i` for that page's token, and every page but
  // the last is truncated and names a token that is neither empty nor its own.
  ghost predicate Serves(serve: Server, prefix: string, delimiter: string, pages: seq<seq<Item>>) {
    forall i :: 0 <= i < |pages| ==>
      AllValid(pages[i]) &&
      serve(i, Query.ListQuery(prefix, delimiter, TokenFor(pages, i))) == Body(Render(RenderItems(pages[i]))) &&
      (Truncated(pages[i]) <==> i < |pages| - 1) &&
      (i < |pages| - 1 ==> Token(pages[i]) != "" && Token(pages[i]) != TokenFor(pages, i))
  }

  /** Listing a server that renders `pages` ends, and returns the objects and the prefixes of all of them, in
      order. */
  lemma {:induction false} ListsEveryPage(serve: Server, prefix: string, delimiter: string,
                                          pages: seq<seq<Item>>, k: nat)
    requires Serves(serve, prefix, delimiter, pages) && k < |pages|
    ensures Lists(serve, prefix, delimiter, k, TokenFor(pages, k), |pages| - k,
                  Listed(AllObjects(pages[k..]), AllPrefixes(pages[k..])))
    decreases |pages| - k
  {
    hide PageOf, Serves, Truncated, Token, Objects, Prefixes, Query.ListQuery;
    PageServed(serve, prefix, delimiter, pages, k);
    assert pages[k..][1..] == pages[k + 1..];
    if k < |pages| - 1 {
      ListsEveryPage(serve, prefix, delimiter, pages, k + 1);
    } else {
      LastPage(Objects(pages[k]), Prefixes(pages[k]), pages[k + 1..]);
    }
  }

  lemma LastPage(os: seq<ObjectInfo>, ps: seq<string>, none: seq<seq<Item>>)
    requires none == []
    ensures os + AllObjects(none) == os && ps + AllPrefixes(none) == ps
  {
  }

  // What the list loop sees when it asks for page k.
  lemma PageServed(serve: Server, prefix: string, delimiter: string, pages: seq<seq<Item>>, k: nat)
    requires Serves(serve, prefix, delimiter, pages) && k < |pages|
    ensures var reply := serve(k, Query.ListQuery(prefix, delimiter, TokenFor(pages, k)));
      reply.Body? && PageOf(reply.xml) ==
        Some(Page(Objects(pages[k]), Prefixes(pages[k]), k < |pages| - 1, Token(pages[k])))
    ensures k < |pages| - 1 ==> Token(pages[k]) != TokenFor(pages, k)
  {
    hide PageOf, Render, RenderItems, AllValid, Truncated, Token, Objects, Prefixes, Query.ListQuery;
    PageReadsBack(pages[k]);
  }

  // --- Such servers exist ---

  // A server that answers the k-th request with the k-th page.
  function PageServer(pages: seq<seq<Item>>): Server {
    (k: nat, query: string) => if k < |pages| then Body(Render(RenderItems(pages[k]))) else Failed
  }

  // Pages that make up one listing.
  ghost predicate Chained(pages: seq<seq<Item>>) {
    forall i :: 0 <= i < |pages| ==>
      AllValid(pages[i]) &&
      (Truncated(pages[i]) <==> i < |pages| - 1) &&
      (i < |pages| - 1 ==> Token(pages[i]) != "" && Token(pages[i]) != TokenFor(pages, i))
  }

  /** Every listing is served by some server, and listing that server returns it whole. */
  lemma EveryListingIsServed(pages: seq<seq<Item>>, prefix: string, delimiter: string)
    requires Chained(pages) && pages != []
    ensures var serve := PageServer(pages);
      && Serves(serve, prefix, delimiter, pages)
      && Lists(serve, prefix, delimiter, 0, "", |pages|, Listed(AllObjects(pages), AllPrefixes(pages)))
  {
    hide PageOf, Render, RenderItems, AllValid, Truncated, Token, Query.ListQuery, Lists, AllObjects, AllPrefixes;
    ListsEveryPage(PageServer(pages), prefix, delimiter, pages, 0);
    assert pages[0..] == pages;
  }
}
