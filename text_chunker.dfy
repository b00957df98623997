/** The content-clarity side's page splitter (`get_text_chunks`): the text of
    each top-level content block of the page's main region, boilerplate blocks
    skipped, empty texts dropped and repeated texts kept once, in page order. */
module TextChunker {
  import opened Seqs
  import opened Dom

  /** The tags a content block may carry. */
  const BlockTags: set<string> := {"section", "div", "article"}

  /** Class names or ids that mark navigation and footer boilerplate. */
  const BoilerplateKeywords: seq<string> := ["nav", "navbar", "footer", "sidebar"]

  /** The markers a block is judged by: its class names, then its id (the empty
      string when it has none). */
  function Markers(e: Node): (ms: seq<string>)
    requires e.Element?
    ensures |ms| == |e.classes| + 1
    ensures forall m :: m in ms <==> m in e.classes || m == (if e.id.Some? then e.id.value else "")
  {
    e.classes + [if e.id.Some? then e.id.value else ""]
  }

  /** A block is boilerplate when one of the keywords equals one of its markers. */
  predicate IsBoilerplate(e: Node)
  {
    e.Element? && exists kw :: kw in BoilerplateKeywords && kw in Markers(e)
  }

  /** The region searched: the first `<main>` of the page, else its first `<body>`.
      A found element is always truthy, so the fallback is taken only when
      there is no `<main>` at all. */
  function Region(doc: Document): Option<Node>
  {
    match FindIn(doc, "main")
    case Some(m) => Some(m)
    case None => FindIn(doc, "body")
  }

  /** What one block adds to the chunk list: its text, unless the block is
      boilerplate or its text is empty. */
  function BlockText(e: Node, getText: Node -> string): (r: seq<string>)
    ensures |r| <= 1
    ensures r == [] <==> IsBoilerplate(e) || getText(e) == ""
  {
    if IsBoilerplate(e) then []
    else
      var text := getText(e);
      if text != "" then [text] else []
  }

  /** The texts of the blocks `blocks`, in order, before de-duplication. */
  function BlockTexts(blocks: seq<Node>, getText: Node -> string): seq<string>
  {
    if |blocks| == 0 then [] else BlockText(blocks[0], getText) + BlockTexts(blocks[1..], getText)
  }

  /** The chunk list of a page; `None` when the page has neither a `<main>`
      nor a `<body>` (the search in a missing region raises). */
  function TextChunks(doc: Document, getText: Node -> string): Option<seq<string>>
  {
    match Region(doc)
    case None => None
    case Some(region) =>
      Some(Dedup(BlockTexts(NamedIn(ChildrenOf(region), BlockTags), getText)))
  }

  lemma {:induction false} BlockTextsAppend(a: seq<Node>, b: seq<Node>, getText: Node -> string)
    ensures BlockTexts(a + b, getText) == BlockTexts(a, getText) + BlockTexts(b, getText)
  {
    if |a| == 0 {
      assert a + b == b;
    } else {
      assert (a + b)[1..] == a[1..] + b;
      BlockTextsAppend(a[1..], b, getText);
    }
  }

  lemma BlockTextsSnoc(a: seq<Node>, e: Node, getText: Node -> string)
    ensures BlockTexts(a + [e], getText) == BlockTexts(a, getText) + BlockText(e, getText)
  {
    BlockTextsAppend(a, [e], getText);
  }

  /** The straight-line procedure: find the region, collect the texts of its
      non-boilerplate blocks, then keep the first copy of each text. */
  method GetTextChunks(doc: Document, getText: Node -> string) returns (result: Option<seq<string>>)
    ensures result == TextChunks(doc, getText)
  {
    var main := FindIn(doc, "main");
    if main.None? {
      main := FindIn(doc, "body");
    }
    if main.None? {
      return None;
    }
    var blocks := NamedIn(ChildrenOf(main.value), BlockTags);
    var chunks := CollectTexts(blocks, getText);
    var unique := UniqueChunks(chunks);
    return Some(unique);
  }

  /** The first loop: every non-boilerplate block's non-empty text, in order. */
  method CollectTexts(blocks: seq<Node>, getText: Node -> string) returns (chunks: seq<string>)
    ensures chunks == BlockTexts(blocks, getText)
  {
    chunks := [];
    for i := 0 to |blocks|
      invariant chunks == BlockTexts(blocks[..i], getText)
    {
      var elem := blocks[i];
      assert blocks[..i + 1] == blocks[..i] + [elem];
      BlockTextsSnoc(blocks[..i], elem, getText);
      if !IsBoilerplate(elem) {
        var text := getText(elem);
        if text != "" {
          chunks := chunks + [text];
        }
      }
    }
    assert blocks[..|blocks|] == blocks;
  }

  /** The second loop: append each chunk not yet in `seen`. */
  method UniqueChunks(chunks: seq<string>) returns (unique: seq<string>)
    ensures unique == Dedup(chunks)
  {
    var seen: set<string> := {};
    unique := [];
    for i := 0 to |chunks|
      invariant unique == Dedup(chunks[..i])
      invariant forall x :: x in seen <==> x in chunks[..i]
    {
      var chunk := chunks[i];
      assert chunks[..i + 1][..i] == chunks[..i];
      if chunk !in seen {
        seen := seen + {chunk};
        unique := unique + [chunk];
      }
    }
    assert chunks[..|chunks|] == chunks;
  }

  /** Membership in the collected texts: exactly the non-empty texts of the
      non-boilerplate blocks. */
  lemma {:induction false} BlockTextsMember(blocks: seq<Node>, getText: Node -> string, t: string)
    ensures t in BlockTexts(blocks, getText) <==>
              exists e :: e in blocks && !IsBoilerplate(e) && getText(e) == t && t != ""
  {
    if |blocks| > 0 {
      BlockTextsMember(blocks[1..], getText, t);
      var e0 := blocks[0];
      if exists e :: e in blocks && !IsBoilerplate(e) && getText(e) == t && t != "" {
        var e :| e in blocks && !IsBoilerplate(e) && getText(e) == t && t != "";
        if e != e0 {
          assert e in blocks[1..];
        }
      }
      if t in BlockTexts(blocks[1..], getText) {
        var e :| e in blocks[1..] && !IsBoilerplate(e) && getText(e) == t && t != "";
        assert e in blocks;
      }
    }
  }

  /** The region is the first `<main>` in document order; only when the page
      has none is it the first `<body>`; and there is no region exactly when
      the page has neither. */
  lemma RegionIsMainElseBody(doc: Document)
    ensures Region(doc).Some? && IsNamed(Region(doc).value, {"main"}) ==>
              Region(doc) == FirstNamed(Descendants(doc), "main")
    ensures (exists x :: x in Descendants(doc) && IsNamed(x, {"main"})) ==>
              Region(doc) == FirstNamed(Descendants(doc), "main")
    ensures (forall x :: x in Descendants(doc) ==> !IsNamed(x, {"main"})) ==>
              Region(doc) == FirstNamed(Descendants(doc), "body")
    ensures Region(doc).None? <==>
              forall x :: x in Descendants(doc) ==> !IsNamed(x, {"main"}) && !IsNamed(x, {"body"})
  {
    FindInIsFirstInDocumentOrder(doc, "main");
    FindInIsFirstInDocumentOrder(doc, "body");
  }

  /** The chunk list is missing exactly when the page has neither a `<main>`
      nor a `<body>` element. */
  lemma NoRegionIsError(doc: Document, getText: Node -> string)
    ensures TextChunks(doc, getText).None? <==>
              forall x :: x in Descendants(doc) ==> !IsNamed(x, {"main"}) && !IsNamed(x, {"body"})
  {
    RegionIsMainElseBody(doc);
  }

  /** A text is a chunk exactly when some direct child of the region is a
      section, div or article that is not boilerplate and has that text,
      which is non-empty. */
  lemma TextChunksMembers(doc: Document, getText: Node -> string, t: string)
    requires Region(doc).Some?
    ensures TextChunks(doc, getText).Some?
    ensures t in TextChunks(doc, getText).value <==>
              exists e :: e in ChildrenOf(Region(doc).value) && IsNamed(e, BlockTags) &&
                          !IsBoilerplate(e) && getText(e) == t && t != ""
  {
    var blocks := NamedIn(ChildrenOf(Region(doc).value), BlockTags);
    BlockTextsMember(blocks, getText, t);
    DedupSameElements(BlockTexts(blocks, getText));
  }

  /** No text is returned twice, the chunks are the first copies of the
      collected texts in their order, and they come in the order in which
      their texts first appear among the blocks. */
  lemma TextChunksAreFirstCopies(doc: Document, getText: Node -> string)
    requires Region(doc).Some?
    ensures TextChunks(doc, getText).Some?
    ensures NoDuplicates(TextChunks(doc, getText).value)
    ensures var texts := BlockTexts(NamedIn(ChildrenOf(Region(doc).value), BlockTags), getText);
            TextChunks(doc, getText).value == Select(texts, FirstOccurrences(texts))
    ensures var texts := BlockTexts(NamedIn(ChildrenOf(Region(doc).value), BlockTags), getText);
            var cs := TextChunks(doc, getText).value;
            (forall c :: c in cs ==> c in texts) &&
            forall i, j :: 0 <= i < j < |cs| ==> FirstIndex(texts, cs[i]) < FirstIndex(texts, cs[j])
  {
    var texts := BlockTexts(NamedIn(ChildrenOf(Region(doc).value), BlockTags), getText);
    DedupNoDuplicates(texts);
    DedupKeepsFirstOccurrences(texts);
    DedupOrdersByFirstOccurrence(texts);
  }

  /** The keyword test compares whole markers: a block is boilerplate exactly
      when one of its class names, or its id, equals a keyword; a class such
      as `main-nav` that merely contains one does not count. */
  lemma BoilerplateIsExactMatch(e: Node)
    requires e.Element?
    ensures IsBoilerplate(e) <==>
              (exists c :: c in e.classes && c in {"nav", "navbar", "footer", "sidebar"}) ||
              (e.id.Some? && e.id.value in {"nav", "navbar", "footer", "sidebar"})
  {
    if e.id.Some? && e.id.value in {"nav", "navbar", "footer", "sidebar"} {
      assert e.id.value in Markers(e);
      assert e.id.value in BoilerplateKeywords;
    }
    if c :| c in e.classes && c in {"nav", "navbar", "footer", "sidebar"} {
      assert c in Markers(e);
      assert c in BoilerplateKeywords;
    }
  }

  /** A block classed `main-nav` with no id is kept. */
  lemma ContainingAKeywordIsNotBoilerplate(children: seq<Node>)
    ensures !IsBoilerplate(Element("div", ["main-nav"], None, [], children))
  {
    BoilerplateIsExactMatch(Element("div", ["main-nav"], None, [], children));
  }

  /** A `<main>` holding one `<div>` whose text is `short text` gives that one chunk. */
  lemma OneShortBlock(getText: Node -> string)
    requires getText(Element("div", [], None, [], [Text("short text")])) == "short text"
    ensures TextChunks([Element("main", [], None, [], [Element("div", [], None, [], [Text("short text")])])], getText)
            == Some(["short text"])
  {
    var div := Element("div", [], None, [], [Text("short text")]);
    var main := Element("main", [], None, [], [div]);
    assert FindIn([main], "main") == Some(main);
    assert NamedIn([div], BlockTags) == [div];
    assert !IsBoilerplate(div);
    assert BlockTexts([div], getText) == ["short text"];
    assert Dedup(["short text"]) == ["short text"];
  }

  /** Two non-boilerplate blocks with the same non-empty text collect that
      text twice, before de-duplication. */
  lemma TwoPlainBlocks(getText: Node -> string, a: Node, b: Node, t: string)
    requires IsNamed(a, BlockTags) && IsNamed(b, BlockTags)
    requires !IsBoilerplate(a) && !IsBoilerplate(b)
    requires t != "" && getText(a) == t && getText(b) == t
    ensures BlockTexts(NamedIn([a, b], BlockTags), getText) == [t, t]
  {
    assert [a, b][1..] == [b];
    assert NamedIn([b], BlockTags) == [b];
    assert NamedIn([a, b], BlockTags) == [a, b];
    assert BlockTexts([b], getText) == [t];
  }

  /** Two sibling `<div>`s with the same text give one chunk. */
  lemma SiblingDuplicatesCollapse(getText: Node -> string)
    requires getText(Element("div", [], None, [], [Text("same")])) == "same"
    ensures var div := Element("div", [], None, [], [Text("same")]);
            TextChunks([Element("main", [], None, [], [div, div])], getText) == Some(["same"])
  {
    var div := Element("div", [], None, [], [Text("same")]);
    var main := Element("main", [], None, [], [div, div]);
    assert FindIn([main], "main") == Some(main);
    TwoPlainBlocks(getText, div, div, "same");
    DedupTwoEqual("same");
  }
}
