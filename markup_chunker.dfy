/** `chunk_html_script`: cut a page's markup into chunks for the
    accessibility review, one structural block per chunk, handing a block
    that is over the token budget to a deeper splitter. */
module MarkupChunker {
  import opened Seqs
  import opened Dom

  /** Direct children of `<html>` that are walked. */
  const TopLevelTags: set<string> := {"head", "body"}

  /** Direct children of `<head>` / `<body>` that are chunked as blocks. */
  const BlockTags: set<string> := {"section", "div", "article", "li"}

  /** What the chunker calls but does not define: `str(elem)` (the parser's
      serialization of an element), `num_tokens` and `chunk_element`. */
  datatype Collaborators = Collaborators(
    serialize: Node -> string,
    numTokens: string -> nat,
    chunkElement: (Node, int) -> seq<string>)

  /** The `<head>` and `<body>` children of `<html>`, in order. */
  function TopLevels(html: Node): seq<Node>
  {
    NamedIn(ChildrenOf(html), TopLevelTags)
  }

  /** The block children of one top-level element, in order. */
  function BlocksOf(top: Node): seq<Node>
  {
    NamedIn(ChildrenOf(top), BlockTags)
  }

  /** The blocks of each top-level element in turn. */
  function BlocksUnder(tops: seq<Node>): seq<Node>
  {
    if |tops| == 0 then [] else BlocksOf(tops[0]) + BlocksUnder(tops[1..])
  }

  /** Every block the chunker visits, in the order it visits them. */
  function Candidates(html: Node): seq<Node>
  {
    BlocksUnder(TopLevels(html))
  }

  /** The chunks one block adds: nothing when it serializes to the empty
      string, itself when it fits the budget, otherwise what the deeper
      splitter makes of it. */
  function Contribution(elem: Node, maxTokens: int, lib: Collaborators): seq<string>
  {
    var chunk := lib.serialize(elem);
    if chunk == "" then []
    else if lib.numTokens(chunk) <= maxTokens then [chunk]
    else lib.chunkElement(elem, maxTokens)
  }

  /** The contributions of `blocks`, one after the other. */
  function ChunksOf(blocks: seq<Node>, maxTokens: int, lib: Collaborators): seq<string>
  {
    if |blocks| == 0 then [] else Contribution(blocks[0], maxTokens, lib) + ChunksOf(blocks[1..], maxTokens, lib)
  }

  /** The result of `chunk_html_script` on a page whose first `<html>` element is `html`. */
  function MarkupChunks(html: Node, maxTokens: int, lib: Collaborators): seq<string>
  {
    ChunksOf(Candidates(html), maxTokens, lib)
  }

  lemma {:induction false} BlocksUnderAppend(a: seq<Node>, b: seq<Node>)
    ensures BlocksUnder(a + b) == BlocksUnder(a) + BlocksUnder(b)
  {
    if |a| == 0 {
      assert a + b == b;
    } else {
      assert (a + b)[1..] == a[1..] + b;
      BlocksUnderAppend(a[1..], b);
    }
  }

  lemma {:induction false} ChunksOfAppend(a: seq<Node>, b: seq<Node>, maxTokens: int, lib: Collaborators)
    ensures ChunksOf(a + b, maxTokens, lib) == ChunksOf(a, maxTokens, lib) + ChunksOf(b, maxTokens, lib)
  {
    if |a| == 0 {
      assert a + b == b;
    } else {
      assert (a + b)[1..] == a[1..] + b;
      ChunksOfAppend(a[1..], b, maxTokens, lib);
    }
  }

  lemma BlocksUnderSnoc(a: seq<Node>, top: Node)
    ensures BlocksUnder(a + [top]) == BlocksUnder(a) + BlocksOf(top)
  {
    BlocksUnderAppend(a, [top]);
    assert [top][1..] == [];
  }

  lemma ChunksOfSnoc(a: seq<Node>, e: Node, maxTokens: int, lib: Collaborators)
    ensures ChunksOf(a + [e], maxTokens, lib) == ChunksOf(a, maxTokens, lib) + Contribution(e, maxTokens, lib)
  {
    ChunksOfAppend(a, [e], maxTokens, lib);
    assert [e][1..] == [];
  }

  /** One more top-level element adds the chunks of its blocks. */
  lemma ChunksOfNextTop(tops: seq<Node>, i: nat, maxTokens: int, lib: Collaborators)
    requires i < |tops|
    ensures ChunksOf(BlocksUnder(tops[..i + 1]), maxTokens, lib) ==
              ChunksOf(BlocksUnder(tops[..i]), maxTokens, lib) + ChunksOf(BlocksOf(tops[i]), maxTokens, lib)
  {
    assert tops[..i + 1] == tops[..i] + [tops[i]];
    BlocksUnderSnoc(tops[..i], tops[i]);
    ChunksOfAppend(BlocksUnder(tops[..i]), BlocksOf(tops[i]), maxTokens, lib);
  }

  /** The inner loop of lines 45-54 over the block children `elems` of one
      top-level element: a block that serializes to the empty string is
      skipped, one within the budget is appended whole, and any other is
      replaced by the chunks of the deeper splitter. */
  method ExtendWithBlocks(chunks0: seq<string>, elems: seq<Node>, maxTokens: int, lib: Collaborators)
    returns (chunks: seq<string>)
    ensures chunks == chunks0 + ChunksOf(elems, maxTokens, lib)
  {
    chunks := chunks0;
    var j := 0;
    while j < |elems|
      invariant 0 <= j <= |elems|
      invariant chunks == chunks0 + ChunksOf(elems[..j], maxTokens, lib)
    {
      var elem := elems[j];
      var htmlChunk := lib.serialize(elem);
      if htmlChunk != "" {
        if lib.numTokens(htmlChunk) <= maxTokens {
          chunks := chunks + [htmlChunk];
        } else {
          chunks := chunks + lib.chunkElement(elem, maxTokens);
        }
      }
      assert elems[..j + 1] == elems[..j] + [elem];
      ChunksOfSnoc(elems[..j], elem, maxTokens, lib);
      j := j + 1;
    }
    assert elems[..j] == elems;
  }

  /** `chunk_html_script` on a parsed page: for each `<head>`/`<body>` child of
      the page's `<html>` element, process its block children in order.
      Python fails with an exception when the page has no `<html>` element. */
  method ChunkHtmlScript(doc: Document, maxTokens: int, lib: Collaborators) returns (chunks: seq<string>)
    requires FindIn(doc, "html").Some?
    ensures chunks == MarkupChunks(FindIn(doc, "html").value, maxTokens, lib)
  {
    var fullHtml := FindIn(doc, "html").value;
    chunks := [];
    var tops := TopLevels(fullHtml);
    var i := 0;
    while i < |tops|
      invariant 0 <= i <= |tops|
      invariant chunks == ChunksOf(BlocksUnder(tops[..i]), maxTokens, lib)
    {
      var elems := BlocksOf(tops[i]);
      chunks := ExtendWithBlocks(chunks, elems, maxTokens, lib);
      ChunksOfNextTop(tops, i, maxTokens, lib);
      i := i + 1;
    }
    assert tops[..i] == tops;
  }

  lemma {:induction false} BlocksUnderMember(tops: seq<Node>, c: Node)
    ensures c in BlocksUnder(tops) <==> exists top :: top in tops && c in BlocksOf(top)
  {
    if |tops| > 0 {
      BlocksUnderMember(tops[1..], c);
      assert forall top :: top in tops <==> top == tops[0] || top in tops[1..];
    }
  }

  /** The blocks visited are exactly the `section`/`div`/`article`/`li`
      elements that are direct children of a `<head>` or `<body>` that is
      itself a direct child of `<html>`; nothing deeper is visited. */
  lemma CandidatesAreDirectBlocks(html: Node, c: Node)
    ensures c in Candidates(html) <==>
              IsNamed(c, BlockTags) &&
              exists top :: top in ChildrenOf(html) && IsNamed(top, TopLevelTags) && c in ChildrenOf(top)
  {
    BlocksUnderMember(TopLevels(html), c);
  }

  /** Each block's chunks sit together, between those of the blocks before
      it and those of the blocks after it. */
  lemma ContributionIsContiguous(blocks: seq<Node>, k: nat, maxTokens: int, lib: Collaborators)
    requires k < |blocks|
    ensures ChunksOf(blocks, maxTokens, lib) ==
              ChunksOf(blocks[..k], maxTokens, lib) + Contribution(blocks[k], maxTokens, lib)
                + ChunksOf(blocks[k + 1..], maxTokens, lib)
  {
    assert blocks == blocks[..k] + ([blocks[k]] + blocks[k + 1..]);
    ChunksOfAppend(blocks[..k], [blocks[k]] + blocks[k + 1..], maxTokens, lib);
    ChunksOfAppend([blocks[k]], blocks[k + 1..], maxTokens, lib);
  }

  /** A chunk comes from exactly one of two places: a non-empty serialization
      of a visited block that fits the budget (the comparison is `<=`), or
      the deeper splitter's output for a visited block that does not. */
  ghost predicate ChunkSource(c: string, e: Node, maxTokens: int, lib: Collaborators)
  {
    var s := lib.serialize(e);
    s != "" &&
    ((lib.numTokens(s) <= maxTokens && c == s) ||
     (lib.numTokens(s) > maxTokens && c in lib.chunkElement(e, maxTokens)))
  }

  lemma ContributionMember(e: Node, c: string, maxTokens: int, lib: Collaborators)
    ensures c in Contribution(e, maxTokens, lib) <==> ChunkSource(c, e, maxTokens, lib)
  {
  }

  lemma {:induction false} ChunksOfMember(blocks: seq<Node>, c: string, maxTokens: int, lib: Collaborators)
    ensures c in ChunksOf(blocks, maxTokens, lib) <==> exists e :: e in blocks && ChunkSource(c, e, maxTokens, lib)
  {
    if |blocks| > 0 {
      ChunksOfMember(blocks[1..], c, maxTokens, lib);
      ContributionMember(blocks[0], c, maxTokens, lib);
      assert forall e :: e in blocks <==> e == blocks[0] || e in blocks[1..];
    }
  }

  /** Every chunk is a fitting block or part of an over-budget block's split,
      and every fitting, non-empty block is emitted. */
  lemma MarkupChunksMembers(html: Node, c: string, maxTokens: int, lib: Collaborators)
    ensures c in MarkupChunks(html, maxTokens, lib) <==>
              exists e :: e in Candidates(html) && ChunkSource(c, e, maxTokens, lib)
  {
    ChunksOfMember(Candidates(html), c, maxTokens, lib);
  }

  /** When the deeper splitter keeps to the budget, so does every chunk. */
  lemma BudgetHolds(html: Node, maxTokens: int, lib: Collaborators)
    requires forall e, c :: c in lib.chunkElement(e, maxTokens) ==> lib.numTokens(c) <= maxTokens
    ensures forall c :: c in MarkupChunks(html, maxTokens, lib) ==> lib.numTokens(c) <= maxTokens
  {
    forall c | c in MarkupChunks(html, maxTokens, lib) ensures lib.numTokens(c) <= maxTokens {
      MarkupChunksMembers(html, c, maxTokens, lib);
    }
  }

  /** An empty serialization never becomes a chunk of its own; the empty
      string can only come out of the deeper splitter. */
  lemma NoEmptyBlockChunk(html: Node, maxTokens: int, lib: Collaborators)
    requires forall e :: "" !in lib.chunkElement(e, maxTokens)
    ensures "" !in MarkupChunks(html, maxTokens, lib)
  {
    MarkupChunksMembers(html, "", maxTokens, lib);
  }

  /** A page with no block to visit gives no chunk. */
  lemma NoBlocksNoChunks(html: Node, maxTokens: int, lib: Collaborators)
    requires forall top :: top in ChildrenOf(html) && IsNamed(top, TopLevelTags) ==>
               forall c :: c in ChildrenOf(top) ==> !IsNamed(c, BlockTags)
    ensures MarkupChunks(html, maxTokens, lib) == []
  {
    if Candidates(html) != [] {
      CandidatesAreDirectBlocks(html, Candidates(html)[0]);
    }
  }

  /** A single visited block whose size is exactly the budget yields exactly one chunk. */
  lemma SingleBlockAtBudget(html: Node, maxTokens: int, lib: Collaborators)
    requires |Candidates(html)| == 1
    requires lib.serialize(Candidates(html)[0]) != ""
    requires lib.numTokens(lib.serialize(Candidates(html)[0])) == maxTokens
    ensures MarkupChunks(html, maxTokens, lib) == [lib.serialize(Candidates(html)[0])]
  {
    var e := Candidates(html)[0];
    assert Contribution(e, maxTokens, lib) == [lib.serialize(e)];
    assert ChunksOf(Candidates(html)[1..], maxTokens, lib) == [];
  }
}
