/** The suggestion-table script's reply splitter: when the reply's text is a
    string, every leading and trailing square bracket is stripped and the
    rest is cut at each `" , "`. */
module TableSplit {
  import opened Seqs
  import opened PyStr

  /** The text field of the decoded reply: a string, or some other JSON value. */
  datatype ReplyValue = Str(s: string) | NotStr

  /** The characters `strip('[]')` removes. */
  const Brackets: set<char> := {'[', ']'}

  /** The separator between suggestions. */
  const Separator: string := " , "

  /** The suggestions of a reply; `None` when the text is not a string and
      the split is skipped. */
  function SplitSuggestions(v: ReplyValue): (r: Option<seq<string>>)
    ensures r.Some? <==> v.Str?
    ensures r.Some? ==> |r.value| >= 1
  {
    match v
    case NotStr => None
    case Str(s) => Some(Split(StripChars(s, Brackets), Separator))
  }

  /** Joining the suggestions with the separator gives back the reply with
      its outer brackets stripped. */
  lemma SuggestionsJoin(s: string)
    ensures JoinWith(SplitSuggestions(Str(s)).value, Separator) == StripChars(s, Brackets)
  {
    SplitJoin(StripChars(s, Brackets), Separator);
  }

  /** Joining the suggestions with the separator gives the reply with its
      outer brackets stripped: that string neither starts nor ends with a
      bracket, and the reply is it with only brackets before and after. */
  lemma SuggestionsRoundTrip(s: string)
    ensures var body := JoinWith(SplitSuggestions(Str(s)).value, Separator);
            var lo := LeadingIn(s, Brackets);
            (|body| == 0 || (body[0] !in Brackets && body[|body| - 1] !in Brackets)) &&
            lo + |body| <= |s| && s[lo..lo + |body|] == body &&
            (forall k :: 0 <= k < lo ==> s[k] in Brackets) &&
            (forall k :: lo + |body| <= k < |s| ==> s[k] in Brackets)
  {
    SuggestionsJoin(s);
  }

  /** Every run of brackets at either end goes, not just one pair. */
  lemma AllOuterBracketsGo()
    ensures SplitSuggestions(Str("[[a]]")) == Some(["a"])
  {
    assert LeadingIn("[[a]]", Brackets) == 2;
    assert TrailingIn("[[a]]", Brackets) == 2;
    assert StripChars("[[a]]", Brackets) == "a";
    assert !OccursAt("a", Separator, 0);
    assert !Contains("a", Separator);
  }

  /** A bracketed list of two items splits into the two items. */
  lemma TwoSuggestions()
    ensures SplitSuggestions(Str("[a , b]")) == Some(["a", "b"])
  {
    var t := "a , b";
    assert LeadingIn("[a , b]", Brackets) == 1;
    assert TrailingIn("[a , b]", Brackets) == 1;
    assert StripChars("[a , b]", Brackets) == t;
    assert !OccursAt(t, Separator, 0) && OccursAt(t, Separator, 1);
    assert Find(t, Separator) == Some(1);
    assert t[..1] == "a" && t[4..] == "b";
    assert !Contains("b", Separator);
    assert Split("b", Separator) == ["b"];
    assert Split(t, Separator) == ["a"] + Split("b", Separator);
    assert ["a"] + ["b"] == ["a", "b"];
    assert SplitSuggestions(Str("[a , b]")) == Some(Split(t, Separator));
  }

  /** There is one more suggestion than non-overlapping separators, and no
      suggestion contains the separator. */
  lemma SuggestionPieces(s: string)
    ensures var t := StripChars(s, Brackets);
            var pieces := SplitSuggestions(Str(s)).value;
            |pieces| == Occurrences(t, Separator) + 1 &&
            forall p :: p in pieces ==> !Contains(p, Separator)
  {
    SplitCount(StripChars(s, Brackets), Separator);
    SplitPiecesAvoidSep(StripChars(s, Brackets), Separator);
  }
}
