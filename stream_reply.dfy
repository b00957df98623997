/** The reply assembler of the model client (`get_pred`): the streamed events
    of a reply are scanned in order, and each text-delta event contributes the
    text between its `text":` key and its last three characters, with escaped
    newlines and quotes undone and every bullet put on a line of its own. */
module StreamReply {
  import opened Seqs
  import opened PyStr

  /** The key whose value carries the text, `text":`. */
  const TextKey: string := "text\":"

  /** The marker of the events that carry text. */
  const DeltaMarker: string := "delta"

  /** The three replacements, in order: a backslash-`n` pair becomes a
      newline, a backslash-quote pair a quote, and a bullet `•` becomes a
      newline, the bullet and a newline. */
  function Unescape(piece: string): string
  {
    var a := Replace(piece, "\\n", "\n");
    var b := Replace(a, "\\\"", "\"");
    Replace(b, "•", "\n•\n")
  }

  /** What one event adds to the reply. Events without the delta marker add
      nothing; so do events without the key, where the failed lookup is
      swallowed. Otherwise: from the key on, drop seven characters (the key
      and the opening quote) and the last three, then unescape. */
  function Contribution(event: string): string
  {
    if !Contains(event, DeltaMarker) then ""
    else match Find(event, TextKey)
      case None => ""
      case Some(i) => Unescape(PySlice(event[i..], 7, -3))
  }

  /** The contribution of each event of `events`, position by position. */
  function Contributions(events: seq<string>): (parts: seq<string>)
    ensures |parts| == |events|
    ensures forall k :: 0 <= k < |events| ==> parts[k] == Contribution(events[k])
  {
    seq(|events|, k requires 0 <= k < |events| => Contribution(events[k]))
  }

  /** The reply assembled from the events `events`: their contributions, in
      stream order. */
  function ReplyText(events: seq<string>): string
  {
    Flatten(Contributions(events))
  }

  lemma ContributionsAppend(a: seq<string>, b: seq<string>)
    ensures Contributions(a + b) == Contributions(a) + Contributions(b)
  {
    var l, r := Contributions(a + b), Contributions(a) + Contributions(b);
    forall k | 0 <= k < |l| ensures l[k] == r[k] {
      if k < |a| {
        assert (a + b)[k] == a[k];
      } else {
        assert (a + b)[k] == b[k - |a|];
      }
    }
  }

  /** The streaming loop. */
  method ExtractReply(events: seq<string>) returns (reply: string)
    ensures reply == ReplyText(events)
  {
    reply := "";
    for n := 0 to |events|
      invariant reply == ReplyText(events[..n])
    {
      var event := events[n];
      assert events[..n + 1] == events[..n] + [event];
      ReplyTextSnoc(events[..n], event);
      if Contains(event, DeltaMarker) {
        match Find(event, TextKey)
        case None =>
        case Some(keyAt) =>
          var piece := PySlice(event[keyAt..], 7, -3);
          piece := Replace(piece, "\\n", "\n");
          piece := Replace(piece, "\\\"", "\"");
          piece := Replace(piece, "•", "\n•\n");
          reply := reply + piece;
      }
    }
    assert events[..|events|] == events;
  }

  /** The reply of two consecutive parts of a stream is the reply of the
      first followed by the reply of the second. */
  lemma ReplyTextAppend(a: seq<string>, b: seq<string>)
    ensures ReplyText(a + b) == ReplyText(a) + ReplyText(b)
  {
    ContributionsAppend(a, b);
    FlattenAppend(Contributions(a), Contributions(b));
  }

  /** Extending the stream by one event appends that event's contribution. */
  lemma ReplyTextSnoc(events: seq<string>, event: string)
    ensures ReplyText(events + [event]) == ReplyText(events) + Contribution(event)
  {
    ReplyTextAppend(events, [event]);
    assert Contributions([event]) == [Contribution(event)];
    assert Flatten([Contribution(event)]) == Contribution(event) by {
      assert [Contribution(event)][1..] == [];
    }
  }

  /** `x[7:-3]` is the window between the first seven and the last three
      characters, and empty when `x` is too short to have one. */
  lemma SliceWindow(x: string)
    ensures PySlice(x, 7, -3) == if |x| >= 10 then x[7..|x| - 3] else ""
  {
  }

  lemma ReplaceOfEmpty(pat: string, repl: string)
    requires |pat| > 0
    ensures Replace("", pat, repl) == ""
  {
    assert !Contains("", pat);
  }

  /** An event contributes the unescaped window after its first key when it
      has the delta marker and the key, and nothing otherwise; in particular
      only an event whose key has at least eleven characters from its start
      to the end can contribute anything. */
  lemma ContributionCases(event: string)
    ensures !Contains(event, DeltaMarker) || !Contains(event, TextKey) ==> Contribution(event) == ""
    ensures Contains(event, DeltaMarker) && Contains(event, TextKey) ==>
              var i := Find(event, TextKey).value;
              OccursAt(event, TextKey, i) && (forall k :: 0 <= k < i ==> !OccursAt(event, TextKey, k)) &&
              Contribution(event) == Unescape(if |event| - i >= 10 then event[i + 7..|event| - 3] else "")
    ensures Contribution(event) != "" ==>
              Contains(event, DeltaMarker) && Contains(event, TextKey) &&
              |event| - Find(event, TextKey).value >= 11
  {
    if Contains(event, DeltaMarker) && Contains(event, TextKey) {
      var i := Find(event, TextKey).value;
      var x := event[i..];
      SliceWindow(x);
      if |x| < 11 {
        assert PySlice(x, 7, -3) == "";
        ReplaceOfEmpty("\\n", "\n");
        ReplaceOfEmpty("\\\"", "\"");
        ReplaceOfEmpty("•", "\n•\n");
      } else {
        assert x[7..|x| - 3] == event[i + 7..|event| - 3];
      }
    }
  }

  /** No backslash-`n` pair is left in what an event contributes: the first
      replacement removes them all and the later two create none. */
  lemma NoEscapedNewlineLeft(event: string)
    ensures !Contains(Contribution(event), "\\n")
  {
    if Contains(event, DeltaMarker) && Find(event, TextKey).Some? {
      var piece := PySlice(event[Find(event, TextKey).value..], 7, -3);
      var a := Replace(piece, "\\n", "\n");
      var b := Replace(a, "\\\"", "\"");
      ReplaceRemovesPair(piece, '\\', 'n', "\n");
      ReplaceKeepsPairAbsent(a, "\\\"", "\"", '\\', 'n');
      assert !Contains("\n•\n", "\\n") by {
        PairAt("\n•\n", '\\', 'n', 0);
        PairAt("\n•\n", '\\', 'n', 1);
      }
      ReplaceKeepsPairAbsent(b, "•", "\n•\n", '\\', 'n');
    } else {
      PairAt("", '\\', 'n', 0);
    }
  }

  /** Every bullet of an event's contribution has a newline right before and
      right after it. */
  lemma BulletsOnTheirOwnLine(event: string)
    ensures Flanked(Contribution(event), '•', '\n')
  {
    if Contains(event, DeltaMarker) && Find(event, TextKey).Some? {
      var piece := PySlice(event[Find(event, TextKey).value..], 7, -3);
      var b := Replace(Replace(piece, "\\n", "\n"), "\\\"", "\"");
      ReplaceFlanks(b, '•', '\n');
    }
  }

  /** The same holds for the whole reply. */
  lemma {:induction false} ReplyBulletsOnTheirOwnLine(events: seq<string>)
    ensures Flanked(ReplyText(events), '•', '\n')
  {
    if |events| == 0 {
      assert Contributions(events) == [];
    } else {
      var init, last := events[..|events| - 1], events[|events| - 1];
      assert events == init + [last];
      ReplyTextSnoc(init, last);
      ReplyBulletsOnTheirOwnLine(init);
      BulletsOnTheirOwnLine(last);
      ConcatFlanked(ReplyText(init), Contribution(last), '•', '\n');
    }
  }

  /** A stream in which no event carries the delta marker gives an empty reply. */
  lemma {:induction false} NoDeltaNoReply(events: seq<string>)
    requires forall k :: 0 <= k < |events| ==> !Contains(events[k], DeltaMarker)
    ensures ReplyText(events) == ""
  {
    if |events| == 0 {
      assert Contributions(events) == [];
    } else {
      var init, last := events[..|events| - 1], events[|events| - 1];
      assert events == init + [last];
      ReplyTextSnoc(init, last);
      NoDeltaNoReply(init);
    }
  }
}
