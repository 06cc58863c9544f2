/** The body that completes a multipart upload: the parts in ascending order, each with its ETag. */
module Completion {
  import opened Text
  import opened Xml
  import opened Markup

  const ROOT := "CompleteMultipartUpload xmlns=" + ("\"http://s3.amazonaws.com/doc/2006-03-01/" + "\"")

  function NumberDoc(i: nat): Doc { Whole([], "PartNumber", DecimalText(i + 1)) }

  function EtagDoc(etag: string): Doc { Whole([], "ETag", EscapedText(etag)) }

  // The element of part i, which is part number i + 1.
  function PartDoc(i: nat, etag: string): Doc {
    Whole([], "Part", NumberDoc(i) + EtagDoc(etag))
  }

  function PartDocs(etags: seq<string>, from: nat): Doc
    decreases |etags| - from
  {
    if from >= |etags| then [] else PartDoc(from, etags[from]) + PartDocs(etags, from + 1)
  }

  function BodyFor(etags: seq<string>): string {
    Render([Tag(ROOT)] + PartDocs(etags, 0) + [Tag("/CompleteMultipartUpload")])
  }

  // --- Building it ---

  lemma ElementRenders(tag: string, inner: Doc)
    ensures Render(Whole([], tag, inner)) == Open(tag) + Render(inner) + Open("/" + tag)
  {
    hide Whole, Render, Open;
    RenderWhole([], tag, inner);
    RenderNothing();
    assert "" + Open(tag) == Open(tag);
  }

  lemma RenderNothing()
    ensures Render([]) == ""
  {
  }

  lemma PartRenders(i: nat, etag: string)
    ensures Render(PartDoc(i, etag)) ==
      Open("Part") + Open("PartNumber") + Decimal(i + 1) + Open("/" + "PartNumber") +
      Open("ETag") + Escape(etag) + Open("/" + "ETag") + Open("/" + "Part")
  {
    hide Whole, Render, Open, Decimal, Escape, EscapedText, DecimalText;
    ElementRenders("Part", NumberDoc(i) + EtagDoc(etag));
    RenderConcat(NumberDoc(i), EtagDoc(etag));
    ElementRenders("PartNumber", DecimalText(i + 1));
    ElementRenders("ETag", EscapedText(etag));
    NumberRenders(i + 1);
    TextRenders(etag);
    Glue(Open("Part"), Open("PartNumber"), Decimal(i + 1), Open("/" + "PartNumber"),
         Open("ETag"), Escape(etag), Open("/" + "ETag"), Open("/" + "Part"));
  }

  lemma Glue(a: string, b: string, c: string, d: string, e: string, f: string, g: string, h: string)
    ensures a + ((b + c + d) + (e + f + g)) + h == a + b + c + d + e + f + g + h
  {
  }

  method CompletionBody(etags: seq<string>) returns (xml: string)
    ensures xml == BodyFor(etags)
  {
    hide Open, Escape, Decimal, Render, PartDoc;
    var root := Open(ROOT);
    xml := root;
    for i := 0 to |etags|
      invariant xml + Render(PartDocs(etags, i)) == root + Render(PartDocs(etags, 0))
    {
      var escaped := XmlEscape(etags[i]);
      var part := Open("Part") + Open("PartNumber") + Decimal(i + 1) + Open("/" + "PartNumber") +
                  Open("ETag") + escaped + Open("/" + "ETag") + Open("/" + "Part");
      PartRenders(i, etags[i]);
      RenderConcat(PartDoc(i, etags[i]), PartDocs(etags, i + 1));
      Assoc(xml, part, Render(PartDocs(etags, i + 1)));
      xml := xml + part;
    }
    RenderNothing();
    assert xml + "" == xml;
    CompletionSplits(etags);
    xml := xml + Open("/CompleteMultipartUpload");
  }

  lemma CompletionSplits(etags: seq<string>)
    ensures BodyFor(etags) == Open(ROOT) + Render(PartDocs(etags, 0)) + Open("/CompleteMultipartUpload")
  {
    hide Render, PartDocs, Open;
    RenderConcat([Tag(ROOT)] + PartDocs(etags, 0), [Tag("/CompleteMultipartUpload")]);
    RenderConcat([Tag(ROOT)], PartDocs(etags, 0));
    RenderOne(Tag(ROOT));
    RenderOne(Tag("/CompleteMultipartUpload"));
  }

  // The parts as they stand in the body.
  function PartsText(etags: seq<string>, from: nat): string
    decreases |etags| - from
  {
    if from >= |etags| then ""
    else
      "<Part><PartNumber>" + Decimal(from + 1) + "</PartNumber><ETag>" + Escape(etags[from]) + "</ETag></Part>" +
      PartsText(etags, from + 1)
  }

  lemma {:induction false} PartsAreText(etags: seq<string>, from: nat)
    ensures Render(PartDocs(etags, from)) == PartsText(etags, from)
    decreases |etags| - from
  {
    hide Render, PartDoc, Decimal, Escape;
    if from >= |etags| {
      RenderNothing();
    } else {
      PartsAreText(etags, from + 1);
      RenderConcat(PartDoc(from, etags[from]), PartDocs(etags, from + 1));
      PartIsText(from, etags[from]);
    }
  }

  lemma PartTags()
    ensures Open("Part") + Open("PartNumber") == "<Part><PartNumber>"
    ensures Open("/" + "PartNumber") + Open("ETag") == "</PartNumber><ETag>"
    ensures Open("/" + "ETag") + Open("/" + "Part") == "</ETag></Part>"
  {
  }

  lemma PartIsText(i: nat, etag: string)
    ensures Render(PartDoc(i, etag)) ==
            "<Part><PartNumber>" + Decimal(i + 1) + "</PartNumber><ETag>" + Escape(etag) + "</ETag></Part>"
  {
    hide Render, PartDoc, Decimal, Escape, Open;
    PartRenders(i, etag);
    PartTags();
    Pairs(Open("Part"), Open("PartNumber"), Decimal(i + 1), Open("/" + "PartNumber"),
          Open("ETag"), Escape(etag), Open("/" + "ETag"), Open("/" + "Part"));
  }

  lemma Pairs(a: string, b: string, c: string, d: string, e: string, f: string, g: string, h: string)
    ensures a + b + c + d + e + f + g + h == (a + b) + c + (d + e) + f + (g + h)
  {
  }

  lemma RootStarts()
    ensures "<" + "CompleteMultipartUpload xmlns=" == "<CompleteMultipartUpload xmlns="
  {
  }

  lemma RootEnds()
    ensures "\"http://s3.amazonaws.com/doc/2006-03-01/" + "\"" + ">" == "\"http://s3.amazonaws.com/doc/2006-03-01/\">"
  {
  }

  lemma RootCloses()
    ensures Open("/CompleteMultipartUpload") == "</CompleteMultipartUpload>"
  {
  }

  lemma FiveJoined(a: string, b: string, c: string, d: string, e: string)
    ensures a + (b + (c + d)) + e == a + b + (c + d + e)
  {
  }

  lemma RootRenders()
    ensures Open(ROOT) == "<CompleteMultipartUpload xmlns=" + "\"http://s3.amazonaws.com/doc/2006-03-01/\">"
  {
    RootStarts();
    RootEnds();
    FiveJoined("<", "CompleteMultipartUpload xmlns=", "\"http://s3.amazonaws.com/doc/2006-03-01/", "\"", ">");
  }

  /** The body is one element of Amazon's namespace, with its closing tag at the end and the parts between. */
  lemma BodyIsOneElement(etags: seq<string>)
    ensures BodyFor(etags) ==
            "<CompleteMultipartUpload xmlns=" + "\"http://s3.amazonaws.com/doc/2006-03-01/\">" +
            PartsText(etags, 0) + "</CompleteMultipartUpload>"
  {
    hide Render, PartDocs, PartsText, BodyFor, Open;
    CompletionSplits(etags);
    PartsAreText(etags, 0);
    RootRenders();
    RootCloses();
  }

  // --- Reading it back ---

  function NumberOf(s: string): Option<nat> {
    if s != "" && AllDigits(s) then Some(DecimalValue(s)) else None
  }

  // One listed part: its number and its ETag.
  function ListedPart(body: string): Option<(nat, string)> {
    var number, etag := NextElement(body, 0, "PartNumber"), NextElement(body, 0, "ETag");
    if number.None? || etag.None? || NumberOf(number.value.0).None? then None
    else Some((NumberOf(number.value.0).value, Unescape(etag.value.0)))
  }

  // The parts listed from `pos` on, by whoever reads the body element by element.
  function ListedFrom(xml: string, pos: nat): Option<seq<(nat, string)>>
    requires pos <= |xml|
    decreases |xml| - pos
  {
    var e := NextElement(xml, pos, "Part");
    if e.None? then Some([])
    else
      var first, rest := ListedPart(e.value.0), ListedFrom(xml, e.value.1);
      if first.None? || rest.None? then None else Some([first.value] + rest.value)
  }

  // Part numbers from `from` + 1 up, each with its ETag.
  function Numbered(etags: seq<string>, from: nat): seq<(nat, string)>
    decreases |etags| - from
  {
    if from >= |etags| then [] else [(from + 1, etags[from])] + Numbered(etags, from + 1)
  }

  lemma Tags()
    ensures NoMarkup("Part") && NoMarkup("PartNumber") && NoMarkup("ETag") && NoMarkup(ROOT)
    ensures NoMarkup("/CompleteMultipartUpload")
    ensures "Part" != "PartNumber" && "Part" != "ETag" && "PartNumber" != "ETag"
    ensures "Part"[0] != '/' && "ETag"[0] != '/' && "PartNumber"[0] != '/'
    ensures ROOT != "Part" && "/CompleteMultipartUpload" != "Part"
  {
    assert ROOT[0] == 'C';
  }

  // A simple element holds its own tags and no others.
  lemma SimpleLacks(tag: string, inner: Doc, name: string)
    requires NoMarkup(tag) && WellFormed(inner) && (forall n :: !Has(inner, n)) && name != tag && name != "/" + tag
    ensures WellFormed(Whole([], tag, inner)) && !Has(Whole([], tag, inner), name)
  {
    hide Whole, WellFormed, Has, NoMarkup;
    Nothing(name);
    HasInWhole([], tag, inner, name);
    WholeWellFormed([], tag, inner);
  }

  lemma Nothing(name: string)
    ensures WellFormed([]) && !Has([], name)
  {
  }

  lemma Slashed(a: string, b: string)
    requires a != b
    ensures "/" + a != "/" + b
  {
    assert ("/" + a)[1..] == a && ("/" + b)[1..] == b;
  }

  lemma NumberReadsBack(n: nat)
    ensures NumberOf(Decimal(n)) == Some(n)
  {
    DecimalReadsBack(n);
  }

  // Inside a part, the number comes first and the ETag behind it.
  lemma InsidePart(i: nat, etag: string)
    ensures ListedPart(Render(NumberDoc(i) + EtagDoc(etag))) == Some((i + 1, etag))
  {
    hide NextElement, Whole, WellFormed, Has, Render, NoMarkup, Unescape, NumberOf, EscapedText, DecimalText;
    var number, tag := DecimalText(i + 1), EscapedText(etag);
    var n, e := Render(NumberDoc(i)), Render(EtagDoc(etag));
    Tags();
    Nothing("PartNumber");
    Nothing("ETag");
    RenderConcat(NumberDoc(i), EtagDoc(etag));
    assert "" + n + e == n + e && n + e + "" == n + e && "" + n == n;
    ElementFound("", [], "PartNumber", number, e);
    SimpleLacks("PartNumber", number, "ETag");
    ElementPasses("", NumberDoc(i), e, "ETag");
    ElementFound(n, [], "ETag", tag, "");
    NumberRenders(i + 1);
    TextRenders(etag);
    NumberReadsBack(i + 1);
    UnescapeInvertsEscape(etag);
  }

  lemma PartInner(i: nat, etag: string)
    ensures var inner := NumberDoc(i) + EtagDoc(etag);
      WellFormed(inner) && !Has(inner, "/" + "Part")
  {
    hide Whole, WellFormed, Has, NoMarkup, EscapedText, DecimalText;
    Tags();
    Slashed("Part", "PartNumber");
    Slashed("Part", "ETag");
    assert ("/" + "Part")[0] == '/';
    SimpleLacks("PartNumber", DecimalText(i + 1), "/" + "Part");
    SimpleLacks("ETag", EscapedText(etag), "/" + "Part");
    WellFormedConcat(NumberDoc(i), EtagDoc(etag));
    HasConcat(NumberDoc(i), EtagDoc(etag), "/" + "Part");
  }

  lemma {:induction false} PartsReadBack(before: string, etags: seq<string>, from: nat, after: Doc)
    requires from <= |etags|
    requires WellFormed(after) && !Has(after, "Part")
    ensures ListedFrom(before + Render(PartDocs(etags, from) + after), |before|) == Some(Numbered(etags, from))
    decreases |etags| - from
  {
    hide NextElement, ListedPart, Render, NumberDoc, EtagDoc, WellFormed, Has, NoMarkup, Whole;
    var xml := before + Render(PartDocs(etags, from) + after);
    Tags();
    if from == |etags| {
      assert PartDocs(etags, from) + after == after;
      ElementMissing(before, after, "Part");
    } else {
      var part, rest := PartDoc(from, etags[from]), PartDocs(etags, from + 1) + after;
      Assoc(part, PartDocs(etags, from + 1), after);
      RenderConcat(part, rest);
      Assoc(before, Render(part), Render(rest));
      PartInner(from, etags[from]);
      Nothing("Part");
      ElementFound(before, [], "Part", NumberDoc(from) + EtagDoc(etags[from]), Render(rest));
      InsidePart(from, etags[from]);
      PartsReadBack(before + Render(part), etags, from + 1, after);
    }
  }

  /** Whatever characters the ETags hold, the body lists parts 1 to n in ascending order, each with its own. */
  lemma CompletionReadsBack(etags: seq<string>)
    ensures ListedFrom(BodyFor(etags), 0) == Some(Numbered(etags, 0))
  {
    hide NextElement, ListedPart, ListedFrom, Numbered, Render, PartDocs, WellFormed, Has, NoMarkup, Open;
    var root, close := [Tag(ROOT)], [Tag("/CompleteMultipartUpload")];
    var rest := PartDocs(etags, 0) + close;
    Tags();
    OneTag(ROOT);
    OneTag("/CompleteMultipartUpload");
    assert root + PartDocs(etags, 0) + close == root + rest;
    RenderConcat(root, rest);
    EmptyInFront(Render(root), Render(rest));
    ElementPasses("", root, Render(rest), "Part");
    PartsReadBack(Render(root), etags, 0, close);
    ListedFromSame(BodyFor(etags), 0, |Render(root)|);
  }

  lemma EmptyInFront(a: string, b: string)
    ensures "" + a + b == a + b && |""| + |a| == |a|
  {
  }

  lemma OneTag(tag: string)
    requires NoMarkup(tag) && tag != "Part"
    ensures WellFormed([Tag(tag)]) && !Has([Tag(tag)], "Part")
  {
  }

  lemma ListedFromSame(xml: string, p: nat, q: nat)
    requires p <= |xml| && q <= |xml| && NextElement(xml, p, "Part") == NextElement(xml, q, "Part")
    ensures ListedFrom(xml, p) == ListedFrom(xml, q)
  {
    hide NextElement, ListedPart;
  }

  lemma {:induction false} NumberedAt(etags: seq<string>, from: nat, k: nat)
    requires from + k < |etags|
    ensures |Numbered(etags, from)| == |etags| - from && Numbered(etags, from)[k] == (from + k + 1, etags[from + k])
    decreases |etags| - from
  {
    if k > 0 {
      NumberedAt(etags, from + 1, k - 1);
    } else if from + 1 < |etags| {
      NumberedAt(etags, from + 1, 0);
    }
  }
}
