/** The reply post-processing of the audience page (positives and challenges
    alike): the reply is stripped and split at newlines, and every line left
    non-empty by stripping becomes one item, stripped. */
module AudienceLines {
  import opened Seqs
  import opened PyStr

  /** The lines of the stripped reply, `reply.strip().split('\n')`. */
  function Lines(reply: string): (r: seq<string>)
    ensures |r| >= 1
  {
    Split(Strip(reply), "\n")
  }

  /** `[x.strip() for x in lines if x.strip()]`. */
  function KeepStripped(lines: seq<string>): seq<string>
  {
    if |lines| == 0 then []
    else (if Strip(lines[0]) != "" then [Strip(lines[0])] else []) + KeepStripped(lines[1..])
  }

  /** The items a reply is turned into. */
  function ReplyItems(reply: string): seq<string>
  {
    KeepStripped(Lines(reply))
  }

  /** Each line stripped, in order. */
  function StrippedLines(lines: seq<string>): (r: seq<string>)
    ensures |r| == |lines|
    ensures forall k :: 0 <= k < |lines| ==> r[k] == Strip(lines[k])
  {
    seq(|lines|, k requires 0 <= k < |lines| => Strip(lines[k]))
  }

  /** Which stripped lines survive the filter. */
  function NonEmptyMask(xs: seq<string>): (keep: seq<bool>)
    ensures |keep| == |xs|
    ensures forall k :: 0 <= k < |xs| ==> keep[k] == (xs[k] != "")
  {
    seq(|xs|, k requires 0 <= k < |xs| => xs[k] != "")
  }

  /** The items are the non-empty stripped lines, in the order of the lines. */
  lemma {:induction false} KeepStrippedIsSelection(lines: seq<string>)
    ensures KeepStripped(lines) == Select(StrippedLines(lines), NonEmptyMask(StrippedLines(lines)))
  {
    if |lines| > 0 {
      KeepStrippedIsSelection(lines[1..]);
      var xs := StrippedLines(lines);
      assert xs[1..] == StrippedLines(lines[1..]);
      assert NonEmptyMask(xs)[1..] == NonEmptyMask(xs[1..]);
    }
  }

  /** The items keep the order of the reply's lines: they are the stripped
      lines with the empty ones deleted. */
  lemma ItemsFollowLines(reply: string)
    ensures ReplyItems(reply) == Select(StrippedLines(Lines(reply)), NonEmptyMask(StrippedLines(Lines(reply))))
    ensures Subsequence(ReplyItems(reply), StrippedLines(Lines(reply)))
    ensures |ReplyItems(reply)| <= |Lines(reply)|
  {
    KeepStrippedIsSelection(Lines(reply));
  }

  lemma {:induction false} KeepStrippedMember(lines: seq<string>, x: string)
    ensures x in KeepStripped(lines) <==> x != "" && exists line :: line in lines && Strip(line) == x
  {
    if |lines| > 0 {
      KeepStrippedMember(lines[1..], x);
      if exists line :: line in lines && Strip(line) == x {
        var line :| line in lines && Strip(line) == x;
        if line != lines[0] {
          assert line in lines[1..];
        }
      }
      if x != "" && exists line :: line in lines[1..] && Strip(line) == x {
        var line :| line in lines[1..] && Strip(line) == x;
        assert line in lines;
      }
    }
  }

  /** A string is an item exactly when it is the non-empty strip of some line. */
  lemma ItemsAreStrippedLines(reply: string, x: string)
    ensures x in ReplyItems(reply) <==> x != "" && exists line :: line in Lines(reply) && Strip(line) == x
  {
    KeepStrippedMember(Lines(reply), x);
  }

  /** No item is empty, none has whitespace at either end, and none holds a
      newline. */
  lemma ItemsAreClean(reply: string)
    ensures forall x :: x in ReplyItems(reply) ==> x != "" && Strip(x) == x && '\n' !in x
  {
    var lines := Lines(reply);
    SplitPiecesAvoidSep(Strip(reply), "\n");
    forall x | x in ReplyItems(reply) ensures x != "" && Strip(x) == x && '\n' !in x {
      KeepStrippedMember(lines, x);
      var line :| line in lines && Strip(line) == x;
      StripCharsIdempotent(line, Whitespace);
      ContainsChar(line, '\n');
      if '\n' in x {
        StripCharsKeepsOnly(line, Whitespace, '\n');
      }
    }
  }

  /** There are at most one more items than newlines in the stripped reply. */
  lemma ItemCount(reply: string)
    ensures |ReplyItems(reply)| <= 1 + multiset(Strip(reply))['\n']
  {
    ItemsFollowLines(reply);
    SplitCount(Strip(reply), "\n");
    OccurrencesOfChar(Strip(reply), '\n');
  }

  /** A reply gives no items exactly when it is empty or all whitespace. */
  lemma NoItemsIffBlank(reply: string)
    ensures ReplyItems(reply) == [] <==> forall k :: 0 <= k < |reply| ==> reply[k] in Whitespace
  {
    var s := Strip(reply);
    var lines := Lines(reply);
    if forall k :: 0 <= k < |reply| ==> reply[k] in Whitespace {
      StripCharsAllRemoved(reply, Whitespace);
      assert !Contains(s, "\n");
      assert lines == [""];
      assert Strip("") == "";
      assert KeepStripped([""]) == [];
    } else {
      var k :| 0 <= k < |reply| && reply[k] !in Whitespace;
      var c := reply[k];
      StripCharsKeepsInner(reply, Whitespace, k);
      SplitJoin(s, "\n");
      JoinMember(lines, "\n", c);
      var line :| line in lines && c in line;
      var j :| 0 <= j < |line| && line[j] == c;
      StripCharsKeepsInner(line, Whitespace, j);
      KeepStrippedMember(lines, Strip(line));
      assert Strip(line) in ReplyItems(reply);
    }
  }
}
