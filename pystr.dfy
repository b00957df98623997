/** The parts of Python's `str` that the chunkers and reply parsers rely on:
    `strip`, `in` / `index`, `split(sep)`, `split()`, `join`, `replace` and
    slicing, each with the semantics CPython gives it. */
module PyStr {
  import opened Seqs

  /** The characters for which Python's `str.isspace()` holds; `strip()` and
      `split()` without arguments treat exactly these as whitespace. */
  const Whitespace: set<char> := {
    '\U{0009}', '\U{000A}', '\U{000B}', '\U{000C}', '\U{000D}',
    '\U{001C}', '\U{001D}', '\U{001E}', '\U{001F}', '\U{0020}',
    '\U{0085}', '\U{00A0}', '\U{1680}',
    '\U{2000}', '\U{2001}', '\U{2002}', '\U{2003}', '\U{2004}', '\U{2005}',
    '\U{2006}', '\U{2007}', '\U{2008}', '\U{2009}', '\U{200A}',
    '\U{2028}', '\U{2029}', '\U{202F}', '\U{205F}', '\U{3000}'
  }

  // ---------------------------------------------------------------- strip

  /** Length of the longest prefix of `s` made of characters in `chars`. */
  function LeadingIn(s: string, chars: set<char>): (n: nat)
    ensures n <= |s|
    ensures forall k :: 0 <= k < n ==> s[k] in chars
    ensures n < |s| ==> s[n] !in chars
  {
    if |s| > 0 && s[0] in chars then 1 + LeadingIn(s[1..], chars) else 0
  }

  /** Length of the longest suffix of `s` made of characters in `chars`. */
  function TrailingIn(s: string, chars: set<char>): (n: nat)
    ensures n <= |s|
    ensures forall k :: |s| - n <= k < |s| ==> s[k] in chars
    ensures n < |s| ==> s[|s| - 1 - n] !in chars
  {
    if |s| > 0 && s[|s| - 1] in chars then 1 + TrailingIn(s[..|s| - 1], chars) else 0
  }

  /** Python's `s.strip(chars)`: every leading and every trailing character
      that belongs to `chars` is removed, however many there are. */
  function StripChars(s: string, chars: set<char>): (r: string)
    ensures |r| == 0 || (r[0] !in chars && r[|r| - 1] !in chars)
    ensures LeadingIn(s, chars) + |r| <= |s|
    ensures r == s[LeadingIn(s, chars)..LeadingIn(s, chars) + |r|]
    ensures forall k :: LeadingIn(s, chars) + |r| <= k < |s| ==> s[k] in chars
  {
    var lead := LeadingIn(s, chars);
    if lead == |s| then "" else s[lead..|s| - TrailingIn(s, chars)]
  }

  /** Python's `s.strip()`. */
  function Strip(s: string): string
  {
    StripChars(s, Whitespace)
  }

  lemma StripCharsIdempotent(s: string, chars: set<char>)
    ensures StripChars(StripChars(s, chars), chars) == StripChars(s, chars)
  {
    var r := StripChars(s, chars);
    assert LeadingIn(r, chars) == 0;
  }

  /** Stripping only removes characters: whatever is left was in `s`. */
  lemma StripCharsKeepsOnly(s: string, chars: set<char>, c: char)
    requires c in StripChars(s, chars)
    ensures c in s
  {
    var r := StripChars(s, chars);
    var i := LeadingIn(s, chars);
    var k :| 0 <= k < |r| && r[k] == c;
    assert s[i + k] == c;
  }

  /** A character outside `chars` survives stripping. */
  lemma StripCharsKeepsInner(s: string, chars: set<char>, k: nat)
    requires k < |s| && s[k] !in chars
    ensures s[k] in StripChars(s, chars)
  {
    var r := StripChars(s, chars);
    var i := LeadingIn(s, chars);
    assert i <= k < i + |r|;
    assert r[k - i] == s[k];
  }

  /** A string made only of characters in `chars` strips to the empty string. */
  lemma StripCharsAllRemoved(s: string, chars: set<char>)
    requires forall k :: 0 <= k < |s| ==> s[k] in chars
    ensures StripChars(s, chars) == ""
  {
  }

  // ----------------------------------------------------- find, `in`, index

  /** `t` occurs in `s` starting at index `i`. */
  predicate OccursAt(s: string, t: string, i: int)
  {
    0 <= i && i + |t| <= |s| && s[i..i + |t|] == t
  }

  /** Python's `t in s` for strings: `t` is a substring of `s`. */
  predicate Contains(s: string, t: string)
  {
    exists i :: 0 <= i <= |s| - |t| && OccursAt(s, t, i)
  }

  function FindFrom(s: string, t: string, from: nat): (r: Option<nat>)
    requires from <= |s|
    ensures r.Some? ==> from <= r.value && OccursAt(s, t, r.value)
    ensures r.Some? ==> forall k :: from <= k < r.value ==> !OccursAt(s, t, k)
    ensures r.None? ==> forall k :: from <= k <= |s| ==> !OccursAt(s, t, k)
    decreases |s| - from
  {
    if OccursAt(s, t, from) then Some(from)
    else if from == |s| then None
    else FindFrom(s, t, from + 1)
  }

  /** Python's `s.find(t)`: the lowest index at which `t` occurs (where
      `s.index(t)` raises `ValueError`, this is `None`). */
  function Find(s: string, t: string): (r: Option<nat>)
    ensures r.Some? ==> OccursAt(s, t, r.value)
    ensures r.Some? ==> forall k :: 0 <= k < r.value ==> !OccursAt(s, t, k)
    ensures r.None? <==> !Contains(s, t)
  {
    FindFrom(s, t, 0)
  }

  /** A two-character needle occurs exactly where the two characters stand side by side. */
  lemma PairAt(s: string, a: char, b: char, i: int)
    ensures OccursAt(s, [a, b], i) <==> 0 <= i && i + 2 <= |s| && s[i] == a && s[i + 1] == b
  {
    if 0 <= i && i + 2 <= |s| && s[i] == a && s[i + 1] == b {
      assert s[i..i + 2] == [a, b];
    }
  }

  lemma CharAt(s: string, c: char, i: int)
    ensures OccursAt(s, [c], i) <==> 0 <= i < |s| && s[i] == c
  {
    if 0 <= i < |s| && s[i] == c {
      assert s[i..i + 1] == [c];
    }
  }

  /** A one-character needle is contained exactly when the character is. */
  lemma ContainsChar(s: string, c: char)
    ensures Contains(s, [c]) <==> c in s
  {
    if c in s {
      var i :| 0 <= i < |s| && s[i] == c;
      CharAt(s, c, i);
    }
    if Contains(s, [c]) {
      var i :| 0 <= i <= |s| - 1 && OccursAt(s, [c], i);
      CharAt(s, c, i);
    }
  }

  // -------------------------------------------------------- split and join

  /** Python's `sep.join(pieces)`. */
  function JoinWith(pieces: seq<string>, sep: string): string
  {
    if |pieces| == 0 then ""
    else if |pieces| == 1 then pieces[0]
    else pieces[0] + sep + JoinWith(pieces[1..], sep)
  }

  /** A character of a join that is not in the separator comes from a piece. */
  lemma {:induction false} JoinMember(pieces: seq<string>, sep: string, c: char)
    requires c in JoinWith(pieces, sep) && c !in sep
    ensures exists p :: p in pieces && c in p
  {
    if |pieces| > 1 {
      var rest := JoinWith(pieces[1..], sep);
      if c !in pieces[0] {
        assert c in rest;
        JoinMember(pieces[1..], sep, c);
        var p :| p in pieces[1..] && c in p;
        assert p in pieces;
      }
    }
  }

  /** Python's `s.split(sep)` for a non-empty separator: cut at the leftmost
      occurrence, then go on after it, so occurrences do not overlap. */
  function Split(s: string, sep: string): (r: seq<string>)
    requires |sep| > 0
    ensures |r| >= 1
    decreases |s|
  {
    match Find(s, sep)
    case None => [s]
    case Some(i) => [s[..i]] + Split(s[i + |sep|..], sep)
  }

  /** Joining the pieces with the separator gives back the original string. */
  lemma {:induction false} SplitJoin(s: string, sep: string)
    requires |sep| > 0
    ensures JoinWith(Split(s, sep), sep) == s
    decreases |s|
  {
    match Find(s, sep)
    case None =>
    case Some(i) =>
      var rest := Split(s[i + |sep|..], sep);
      SplitJoin(s[i + |sep|..], sep);
      assert ([s[..i]] + rest)[1..] == rest;
      assert s == s[..i] + s[i..i + |sep|] + s[i + |sep|..];
  }

  /** The text before the first occurrence of `t` does not contain `t`. */
  lemma PrefixBeforeFirst(s: string, t: string, i: nat)
    requires |t| > 0 && i <= |s|
    requires forall k :: 0 <= k < i ==> !OccursAt(s, t, k)
    ensures !Contains(s[..i], t)
  {
    var head := s[..i];
    forall k | 0 <= k <= |head| - |t| ensures !OccursAt(head, t, k) {
      assert !OccursAt(s, t, k);
      assert head[k..k + |t|] == s[k..k + |t|];
    }
  }

  /** No piece contains the separator. */
  lemma {:induction false} SplitPiecesAvoidSep(s: string, sep: string)
    requires |sep| > 0
    ensures forall p :: p in Split(s, sep) ==> !Contains(p, sep)
    decreases |s|
  {
    match Find(s, sep)
    case None =>
    case Some(i) =>
      SplitPiecesAvoidSep(s[i + |sep|..], sep);
      PrefixBeforeFirst(s, sep, i);
  }

  /** Number of non-overlapping occurrences of `t` in `s`, counted by a
      left-to-right scan that jumps past each occurrence it finds. */
  function Occurrences(s: string, t: string): nat
    requires |t| > 0
    decreases |s|
  {
    if |s| < |t| then 0
    else if s[..|t|] == t then 1 + Occurrences(s[|t|..], t)
    else Occurrences(s[1..], t)
  }

  lemma {:induction false} OccurrencesSkip(s: string, t: string, k: nat)
    requires |t| > 0 && k <= |s|
    requires forall j :: 0 <= j < k ==> !OccursAt(s, t, j)
    ensures Occurrences(s, t) == Occurrences(s[k..], t)
    decreases k
  {
    if k > 0 && |s| >= |t| {
      assert !OccursAt(s, t, 0);
      forall j | 0 <= j < k - 1 ensures !OccursAt(s[1..], t, j) {
        assert !OccursAt(s, t, j + 1);
        if j + |t| <= |s| - 1 {
          assert s[1..][j..j + |t|] == s[j + 1..j + 1 + |t|];
        }
      }
      OccurrencesSkip(s[1..], t, k - 1);
      assert s[1..][k - 1..] == s[k..];
    }
  }

  /** `s.split(sep)` has one piece more than `sep` has occurrences in `s`. */
  lemma {:induction false} SplitCount(s: string, sep: string)
    requires |sep| > 0
    ensures |Split(s, sep)| == Occurrences(s, sep) + 1
    decreases |s|
  {
    match Find(s, sep)
    case None =>
      OccurrencesSkip(s, sep, |s|);
    case Some(i) =>
      OccurrencesSkip(s, sep, i);
      assert s[i..][..|sep|] == sep;
      assert s[i..][|sep|..] == s[i + |sep|..];
      SplitCount(s[i + |sep|..], sep);
  }

  /** For a one-character needle the count is the number of times the character occurs. */
  lemma {:induction false} OccurrencesOfChar(s: string, c: char)
    ensures Occurrences(s, [c]) == multiset(s)[c]
    decreases |s|
  {
    if |s| > 0 {
      OccurrencesOfChar(s[1..], c);
      assert s == [s[0]] + s[1..];
      assert (s[..1] == [c]) == (s[0] == c);
    }
  }

  // ------------------------------------------------ split() on whitespace

  /** Length of the leading run of non-whitespace characters of `s`. */
  function WordEnd(s: string): (n: nat)
    ensures n <= |s|
    ensures forall k :: 0 <= k < n ==> s[k] !in Whitespace
    ensures n < |s| ==> s[n] in Whitespace
  {
    if |s| > 0 && s[0] !in Whitespace then 1 + WordEnd(s[1..]) else 0
  }

  /** A non-empty run of non-whitespace characters. */
  predicate IsWord(w: string)
  {
    |w| > 0 && forall k :: 0 <= k < |w| ==> w[k] !in Whitespace
  }

  /** Python's `s.split()`: the maximal runs of non-whitespace characters,
      leading, trailing and repeated whitespace producing no empty pieces. */
  function Words(s: string): (r: seq<string>)
    ensures forall w :: w in r ==> IsWord(w)
    decreases |s|
  {
    if |s| == 0 then []
    else if s[0] in Whitespace then Words(s[1..])
    else
      var n := WordEnd(s);
      [s[..n]] + Words(s[n..])
  }

  /** `s.split()` is empty exactly when `s` is empty or all whitespace. */
  lemma {:induction false} WordsEmptyIffBlank(s: string)
    ensures Words(s) == [] <==> forall k :: 0 <= k < |s| ==> s[k] in Whitespace
    decreases |s|
  {
    if |s| > 0 && s[0] in Whitespace {
      WordsEmptyIffBlank(s[1..]);
      assert forall k :: 1 <= k < |s| ==> s[k] == s[1..][k - 1];
    }
  }

  /** Words joined by single spaces split back into the same words. */
  lemma {:induction false} WordsOfSpaceJoin(ws: seq<string>)
    requires forall w :: w in ws ==> IsWord(w)
    ensures Words(JoinWith(ws, " ")) == ws
  {
    if |ws| == 1 {
      var w := ws[0];
      assert IsWord(w);
      assert WordEnd(w) == |w|;
      assert w[..|w|] == w && w[|w|..] == [];
    } else if |ws| > 1 {
      var w, rest := ws[0], JoinWith(ws[1..], " ");
      var s := w + " " + rest;
      assert IsWord(w);
      assert s[|w|] == ' ';
      assert forall k :: 0 <= k < |w| ==> s[k] == w[k];
      assert WordEnd(s) == |w|;
      assert s[..|w|] == w;
      assert s[|w|..] == " " + rest;
      assert (" " + rest)[1..] == rest;
      WordsOfSpaceJoin(ws[1..]);
      assert ws == [w] + ws[1..];
    }
  }

  // --------------------------------------------------------------- replace

  /** Python's `s.replace(pat, repl)` for a non-empty `pat`: every
      non-overlapping occurrence, leftmost first, is replaced. */
  function Replace(s: string, pat: string, repl: string): string
    requires |pat| > 0
    decreases |s|
  {
    match Find(s, pat)
    case None => s
    case Some(i) => s[..i] + repl + Replace(s[i + |pat|..], pat, repl)
  }

  /** `split` at the first occurrence, when there is one. */
  lemma SplitUnfold(s: string, sep: string)
    requires |sep| > 0 && Find(s, sep).Some?
    ensures Find(s, sep).value + |sep| <= |s|
    ensures Split(s, sep) == [s[..Find(s, sep).value]] + Split(s[Find(s, sep).value + |sep|..], sep)
  {
  }

  /** `replace` at the first occurrence, when there is one. */
  lemma ReplaceUnfold(s: string, pat: string, repl: string)
    requires |pat| > 0 && Find(s, pat).Some?
    ensures Find(s, pat).value + |pat| <= |s|
    ensures Replace(s, pat, repl) ==
              s[..Find(s, pat).value] + repl + Replace(s[Find(s, pat).value + |pat|..], pat, repl)
  {
  }

  /** A string without the pair `ab` has none in any slice. */
  lemma SliceAvoidsPair(s: string, lo: nat, hi: nat, a: char, b: char)
    requires lo <= hi <= |s| && !Contains(s, [a, b])
    ensures !Contains(s[lo..hi], [a, b])
  {
    var t := s[lo..hi];
    forall k | 0 <= k <= |t| - 2 ensures !OccursAt(t, [a, b], k) {
      PairAt(s, a, b, k + lo);
      PairAt(t, a, b, k);
    }
  }

  /** `replace` is splitting on `pat` and joining with `repl`. */
  lemma {:induction false} ReplaceIsSplitJoin(s: string, pat: string, repl: string)
    requires |pat| > 0
    ensures Replace(s, pat, repl) == JoinWith(Split(s, pat), repl)
    decreases |s|
  {
    match Find(s, pat)
    case None =>
    case Some(i) =>
      var tail := s[i + |pat|..];
      SplitUnfold(s, pat);
      ReplaceUnfold(s, pat, repl);
      ReplaceIsSplitJoin(tail, pat, repl);
      JoinCons(s[..i], Split(tail, pat), repl);
  }

  /** Joining a non-empty list after one more piece puts the separator between them. */
  lemma JoinCons(head: string, rest: seq<string>, sep: string)
    requires |rest| >= 1
    ensures JoinWith([head] + rest, sep) == head + sep + JoinWith(rest, sep)
  {
    assert ([head] + rest)[1..] == rest;
  }

  /** Concatenation creates the pair `ab` only across the seam. */
  lemma ConcatAvoidsPair(x: string, y: string, a: char, b: char)
    requires !Contains(x, [a, b]) && !Contains(y, [a, b])
    requires |x| == 0 || |y| == 0 || x[|x| - 1] != a || y[0] != b
    ensures !Contains(x + y, [a, b])
  {
    var s := x + y;
    forall i | 0 <= i <= |s| - 2 ensures !OccursAt(s, [a, b], i) {
      PairAt(s, a, b, i);
      if i + 1 < |x| {
        PairAt(x, a, b, i);
      } else if i >= |x| {
        PairAt(y, a, b, i - |x|);
      }
    }
  }

  /** Replacing the pair `ab` by a text that cannot form it with its
      neighbours leaves no `ab` behind. */
  lemma {:induction false} ReplaceRemovesPair(s: string, a: char, b: char, repl: string)
    requires |repl| > 0 && repl[0] != b && repl[|repl| - 1] != a && !Contains(repl, [a, b])
    ensures !Contains(Replace(s, [a, b], repl), [a, b])
    decreases |s|
  {
    match Find(s, [a, b])
    case None =>
    case Some(i) =>
      var head, rest := s[..i], Replace(s[i + 2..], [a, b], repl);
      ReplaceRemovesPair(s[i + 2..], a, b, repl);
      forall k | 0 <= k <= |head| - 2 ensures !OccursAt(head, [a, b], k) {
        assert !OccursAt(s, [a, b], k);
        PairAt(s, a, b, k);
        PairAt(head, a, b, k);
      }
      ConcatAvoidsPair(head, repl, a, b);
      ConcatAvoidsPair(head + repl, rest, a, b);
  }

  /** Replacing anything by a text that cannot form the pair `ab` with its
      neighbours never creates an `ab`. */
  lemma {:induction false} ReplaceKeepsPairAbsent(s: string, pat: string, repl: string, a: char, b: char)
    requires |pat| > 0 && !Contains(s, [a, b])
    requires |repl| > 0 && repl[0] != b && repl[|repl| - 1] != a && !Contains(repl, [a, b])
    ensures !Contains(Replace(s, pat, repl), [a, b])
    decreases |s|
  {
    match Find(s, pat)
    case None =>
    case Some(i) =>
      ReplaceUnfold(s, pat, repl);
      var head, tail := s[..i], s[i + |pat|..];
      SliceAvoidsPair(s, 0, i, a, b);
      assert s[0..i] == head;
      SliceAvoidsPair(s, i + |pat|, |s|, a, b);
      assert s[i + |pat|..|s|] == tail;
      ReplaceKeepsPairAbsent(tail, pat, repl, a, b);
      ConcatAvoidsPair(head, repl, a, b);
      ConcatAvoidsPair(head + repl, Replace(tail, pat, repl), a, b);
  }

  /** Every `c` in `s` has an `f` immediately before and after it. */
  predicate Flanked(s: string, c: char, f: char)
  {
    forall k :: 0 <= k < |s| && s[k] == c ==> 0 < k < |s| - 1 && s[k - 1] == f && s[k + 1] == f
  }

  lemma ConcatFlanked(x: string, y: string, c: char, f: char)
    requires Flanked(x, c, f) && Flanked(y, c, f)
    ensures Flanked(x + y, c, f)
  {
    var s := x + y;
    forall k | 0 <= k < |s| && s[k] == c
      ensures 0 < k < |s| - 1 && s[k - 1] == f && s[k + 1] == f
    {
      if k < |x| {
        assert x[k] == c;
      } else {
        assert y[k - |x|] == c;
      }
    }
  }

  /** After `s.replace(c, f + c + f)` every `c` stands between two `f`s. */
  lemma {:induction false} ReplaceFlanks(s: string, c: char, f: char)
    requires c != f
    ensures Flanked(Replace(s, [c], [f, c, f]), c, f)
    decreases |s|
  {
    match Find(s, [c])
    case None =>
      forall k | 0 <= k < |s| ensures s[k] != c {
        CharAt(s, c, k);
      }
    case Some(i) =>
      var head := s[..i];
      forall k | 0 <= k < |head| ensures head[k] != c {
        CharAt(s, c, k);
      }
      ReplaceFlanks(s[i + 1..], c, f);
      ConcatFlanked(head, [f, c, f], c, f);
      ConcatFlanked(head + [f, c, f], Replace(s[i + 1..], [c], [f, c, f]), c, f);
  }

  // ---------------------------------------------------------------- slices

  /** How Python turns a slice bound into an index of a sequence of length `len`. */
  function SliceBound(i: int, len: nat): (r: nat)
    ensures r <= len
  {
    if i < 0 then (if i + len < 0 then 0 else i + len)
    else if i > len then len
    else i
  }

  /** Python's `s[start:stop]`. */
  function PySlice(s: string, start: int, stop: int): string
  {
    var lo, hi := SliceBound(start, |s|), SliceBound(stop, |s|);
    if lo < hi then s[lo..hi] else ""
  }
}
