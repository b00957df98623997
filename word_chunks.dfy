/** The retrieval helper's text splitter (`chunk_text`): the text is split into
    words at whitespace, and every run of `chunkSize` consecutive words, the
    last possibly shorter, is joined back with single spaces. */
module WordChunks {
  import opened Seqs
  import opened PyStr

  function Min(a: int, b: int): int
  {
    if a <= b then a else b
  }

  /** The windows `words[i:i+n]` for `i` in `range(0, len(words), n)`, taken
      front to back. */
  function Groups(words: seq<string>, n: nat): seq<seq<string>>
    requires n > 0
    decreases |words|
  {
    if |words| == 0 then []
    else
      var m := Min(n, |words|);
      [words[..m]] + Groups(words[m..], n)
  }

  /** Each window joined with single spaces. */
  function JoinEach(groups: seq<seq<string>>): (r: seq<string>)
    ensures |r| == |groups|
    ensures forall k :: 0 <= k < |groups| ==> r[k] == JoinWith(groups[k], " ")
  {
    seq(|groups|, k requires 0 <= k < |groups| => JoinWith(groups[k], " "))
  }

  /** `chunk_text(text, chunkSize)`. A size of zero makes the range raise, and
      is `None`; a negative size makes the range empty. */
  function ChunkText(text: string, chunkSize: int): Option<seq<string>>
  {
    if chunkSize == 0 then None
    else if chunkSize < 0 then Some([])
    else Some(JoinEach(Groups(Words(text), chunkSize)))
  }

  /** The windows put back together are the words, in order. */
  lemma {:induction false} GroupsFlatten(words: seq<string>, n: nat)
    requires n > 0
    ensures Flatten(Groups(words, n)) == words
    decreases |words|
  {
    if |words| > 0 {
      var m := Min(n, |words|);
      GroupsFlatten(words[m..], n);
      assert ([words[..m]] + Groups(words[m..], n))[1..] == Groups(words[m..], n);
      assert words[..m] + words[m..] == words;
    }
  }

  /** Every window holds between one and `n` words, and all but the last
      exactly `n`. */
  lemma {:induction false} GroupsSizes(words: seq<string>, n: nat)
    requires n > 0
    ensures forall k :: 0 <= k < |Groups(words, n)| ==>
              0 < |Groups(words, n)[k]| <= n &&
              (k < |Groups(words, n)| - 1 ==> |Groups(words, n)[k]| == n)
    decreases |words|
  {
    if |words| > 0 {
      var m := Min(n, |words|);
      var rest := Groups(words[m..], n);
      GroupsSizes(words[m..], n);
      assert Groups(words, n) == [words[..m]] + rest;
      if m < n {
        assert words[m..] == [];
        assert rest == [];
      }
    }
  }

  /** One more window of `n` words adds `n` to the word count covered. */
  lemma MulStep(k: nat, n: nat)
    requires k > 0
    ensures k * n == (k - 1) * n + n
  {
  }

  /** There are `ceil(|words| / n)` windows, as many as the range has values:
      the last window starts before the end and the windows cover all words. */
  lemma {:induction false} GroupsCount(words: seq<string>, n: nat)
    requires n > 0
    ensures |Groups(words, n)| == 0 <==> |words| == 0
    ensures |words| <= |Groups(words, n)| * n
    ensures |Groups(words, n)| > 0 ==> (|Groups(words, n)| - 1) * n < |words|
    decreases |words|
  {
    if |words| > 0 {
      var m := Min(n, |words|);
      var g := |Groups(words[m..], n)|;
      GroupsCount(words[m..], n);
      assert |Groups(words, n)| == g + 1;
      MulStep(g + 1, n);
      if m < n {
        assert words[m..] == [];
      }
    }
  }

  /** More than one window needs more than `n` words. */
  lemma GroupsLong(words: seq<string>, n: nat)
    requires n > 0
    ensures |Groups(words, n)| > 1 ==> n < |words|
  {
    if 0 < |words| <= n {
      assert Min(n, |words|) == |words|;
      assert words[|words|..] == [];
      assert Groups(words, n) == [words[..|words|]] + Groups([], n);
    }
  }

  /** A window after the first is a window of the words after the first `n`. */
  lemma GroupsShift(words: seq<string>, n: nat, k: nat)
    requires n > 0 && 0 < k < |Groups(words, n)|
    ensures n < |words|
    ensures k - 1 < |Groups(words[n..], n)|
    ensures Groups(words, n)[k] == Groups(words[n..], n)[k - 1]
  {
    GroupsLong(words, n);
    assert Groups(words, n) == [words[..n]] + Groups(words[n..], n);
  }

  /** Slicing after a drop of `d` is slicing further along. */
  lemma SliceAfterDrop(words: seq<string>, d: nat, lo: nat, hi: nat)
    requires d <= |words| && lo <= hi <= |words| - d
    ensures words[d..][lo..hi] == words[lo + d..hi + d]
  {
  }

  /** The `k`-th window starts at word `k * n`: it is `words[k*n : k*n+n]`. */
  lemma {:induction false} GroupsAreWindows(words: seq<string>, n: nat, k: nat)
    requires n > 0 && k < |Groups(words, n)|
    ensures k * n < |words|
    ensures Groups(words, n)[k] == words[k * n..Min(k * n + n, |words|)]
    decreases |words|
  {
    if k > 0 {
      GroupsShift(words, n, k);
      var tail := words[n..];
      GroupsAreWindows(tail, n, k - 1);
      var lo := (k - 1) * n;
      var hi := Min(lo + n, |tail|);
      MulStep(k, n);
      assert k * n == lo + n;
      assert Min(k * n + n, |words|) == hi + n;
      SliceAfterDrop(words, n, lo, hi);
    }
  }

  /** Each chunk splits back into exactly the words of its window. */
  lemma ChunkWords(text: string, n: nat, k: nat)
    requires n > 0 && k < |ChunkText(text, n).value|
    ensures k < |Groups(Words(text), n)|
    ensures Words(ChunkText(text, n).value[k]) == Groups(Words(text), n)[k]
  {
    var g := Groups(Words(text), n);
    assert g[k] in g;
    GroupsFlatten(Words(text), n);
    FlattenMember(g, "");
    forall w | w in g[k] ensures IsWord(w) {
      FlattenMember(g, w);
    }
    WordsOfSpaceJoin(g[k]);
  }

  /** Every chunk has at most `n` words, every one but the last exactly `n`,
      and none is empty. */
  lemma ChunkSizes(text: string, n: nat)
    requires n > 0
    ensures var cs := ChunkText(text, n).value;
            forall k :: 0 <= k < |cs| ==>
              0 < |Words(cs[k])| <= n && (k < |cs| - 1 ==> |Words(cs[k])| == n)
  {
    var cs := ChunkText(text, n).value;
    GroupsSizes(Words(text), n);
    forall k | 0 <= k < |cs|
      ensures 0 < |Words(cs[k])| <= n && (k < |cs| - 1 ==> |Words(cs[k])| == n)
    {
      ChunkWords(text, n, k);
    }
  }

  /** The words of the chunks, in order, are the words of the text: nothing is
      lost, repeated or reordered. */
  lemma ChunkRoundTrip(text: string, n: nat)
    requires n > 0
    ensures var cs := ChunkText(text, n).value;
            Flatten(seq(|cs|, k requires 0 <= k < |cs| => Words(cs[k]))) == Words(text)
  {
    var cs := ChunkText(text, n).value;
    var g := Groups(Words(text), n);
    forall k | 0 <= k < |cs| ensures Words(cs[k]) == g[k] {
      ChunkWords(text, n, k);
    }
    assert seq(|cs|, k requires 0 <= k < |cs| => Words(cs[k])) == g;
    GroupsFlatten(Words(text), n);
  }

  /** There are `ceil(w / n)` chunks for a text of `w` words; an empty or
      all-whitespace text gives none. */
  lemma ChunkCount(text: string, n: nat)
    requires n > 0
    ensures var c := |ChunkText(text, n).value|;
            |Words(text)| <= c * n && (c > 0 ==> (c - 1) * n < |Words(text)|)
    ensures ChunkText(text, n) == Some([]) <==> forall k :: 0 <= k < |text| ==> text[k] in Whitespace
  {
    GroupsCount(Words(text), n);
    WordsEmptyIffBlank(text);
  }
}
