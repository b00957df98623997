/** Sequence helpers shared by the chunkers: optional values, flattening,
    order-preserving selection and first-occurrence de-duplication. */
module Seqs {

  datatype Option<+T> = None | Some(value: T)

  /** Concatenation of the sequences in `ss`, in order (Python's `extend` loop). */
  function Flatten<T>(ss: seq<seq<T>>): seq<T>
  {
    if |ss| == 0 then [] else ss[0] + Flatten(ss[1..])
  }

  lemma {:induction false} FlattenAppend<T>(a: seq<seq<T>>, b: seq<seq<T>>)
    ensures Flatten(a + b) == Flatten(a) + Flatten(b)
  {
    if |a| == 0 {
      assert a + b == b;
    } else {
      assert (a + b)[1..] == a[1..] + b;
      FlattenAppend(a[1..], b);
    }
  }

  /** Membership in a flattened sequence is membership in one of its parts. */
  lemma {:induction false} FlattenMember<T>(ss: seq<seq<T>>, x: T)
    ensures x in Flatten(ss) <==> exists k :: 0 <= k < |ss| && x in ss[k]
  {
    if |ss| > 0 {
      FlattenMember(ss[1..], x);
      if x in Flatten(ss[1..]) {
        var k :| 0 <= k < |ss[1..]| && x in ss[1..][k];
        assert x in ss[k + 1];
      }
      if exists k :: 0 <= k < |ss| && x in ss[k] {
        var k :| 0 <= k < |ss| && x in ss[k];
        if k > 0 { assert x in ss[1..][k - 1]; }
      }
    }
  }

  /** The elements of `xs` at the positions where `keep` is true, in order. */
  function Select<T>(xs: seq<T>, keep: seq<bool>): (r: seq<T>)
    requires |keep| == |xs|
    ensures |r| <= |xs|
  {
    if |xs| == 0 then [] else (if keep[0] then [xs[0]] else []) + Select(xs[1..], keep[1..])
  }

  lemma {:induction false} SelectSnoc<T>(xs: seq<T>, keep: seq<bool>, x: T, b: bool)
    requires |keep| == |xs|
    ensures Select(xs + [x], keep + [b]) == Select(xs, keep) + (if b then [x] else [])
  {
    if |xs| == 0 {
      assert xs + [x] == [x] && keep + [b] == [b];
    } else {
      assert (xs + [x])[1..] == xs[1..] + [x];
      assert (keep + [b])[1..] == keep[1..] + [b];
      SelectSnoc(xs[1..], keep[1..], x, b);
    }
  }

  /** `a` is `b` with some elements deleted and the rest left in their order. */
  ghost predicate Subsequence<T>(a: seq<T>, b: seq<T>)
  {
    exists keep: seq<bool> :: |keep| == |b| && a == Select(b, keep)
  }

  predicate NoDuplicates<T(==)>(xs: seq<T>)
  {
    forall i, j :: 0 <= i < j < |xs| ==> xs[i] != xs[j]
  }

  /** `xs` with every element that already occurred earlier removed; this is
      what a loop that appends each element not yet in a `seen` set builds. */
  function Dedup<T(==)>(xs: seq<T>): seq<T>
  {
    if |xs| == 0 then []
    else
      var init, last := xs[..|xs| - 1], xs[|xs| - 1];
      Dedup(init) + (if last in init then [] else [last])
  }

  /** Position `k` of `xs` holds the first occurrence of its value. */
  function FirstOccurrences<T(==)>(xs: seq<T>): (keep: seq<bool>)
    ensures |keep| == |xs|
    ensures forall k :: 0 <= k < |xs| ==> (keep[k] <==> xs[k] !in xs[..k])
  {
    seq(|xs|, k requires 0 <= k < |xs| => xs[k] !in xs[..k])
  }

  /** Extending a sequence by one element extends its first-occurrence mask
      by whether that element is new. */
  lemma FirstOccurrencesSnoc<T>(init: seq<T>, last: T)
    ensures FirstOccurrences(init + [last]) == FirstOccurrences(init) + [last !in init]
  {
    var xs := init + [last];
    var keep := FirstOccurrences(init) + [last !in init];
    forall k | 0 <= k < |xs| ensures FirstOccurrences(xs)[k] == keep[k] {
      if k < |init| {
        assert xs[..k] == init[..k];
      } else {
        assert xs[..k] == init;
      }
    }
  }

  /** De-duplication keeps exactly the first occurrences, in their order. */
  lemma {:induction false} DedupKeepsFirstOccurrences<T>(xs: seq<T>)
    ensures Dedup(xs) == Select(xs, FirstOccurrences(xs))
  {
    if |xs| > 0 {
      var init, last := xs[..|xs| - 1], xs[|xs| - 1];
      DedupKeepsFirstOccurrences(init);
      assert xs == init + [last];
      FirstOccurrencesSnoc(init, last);
      SelectSnoc(init, FirstOccurrences(init), last, last !in init);
    }
  }

  /** Two equal values collapse to one. */
  lemma DedupTwoEqual<T>(x: T)
    ensures Dedup([x, x]) == [x]
  {
    assert [x, x][..1] == [x];
    assert Dedup([x]) == [x];
  }

  lemma DedupIsSubsequence<T>(xs: seq<T>)
    ensures Subsequence(Dedup(xs), xs)
  {
    DedupKeepsFirstOccurrences(xs);
  }

  /** De-duplication loses no value and adds none. */
  lemma {:induction false} DedupSameElements<T>(xs: seq<T>)
    ensures forall x :: x in Dedup(xs) <==> x in xs
  {
    if |xs| > 0 {
      var init, last := xs[..|xs| - 1], xs[|xs| - 1];
      DedupSameElements(init);
      assert xs == init + [last];
    }
  }

  lemma {:induction false} DedupNoDuplicates<T>(xs: seq<T>)
    ensures NoDuplicates(Dedup(xs))
  {
    if |xs| > 0 {
      var init, last := xs[..|xs| - 1], xs[|xs| - 1];
      DedupNoDuplicates(init);
      DedupSameElements(init);
    }
  }

  /** A sequence without repeats is its own de-duplication. */
  lemma {:induction false} DedupOfDistinct<T>(xs: seq<T>)
    requires NoDuplicates(xs)
    ensures Dedup(xs) == xs
  {
    if |xs| > 0 {
      var init, last := xs[..|xs| - 1], xs[|xs| - 1];
      forall i | 0 <= i < |init| ensures init[i] != last {
        assert init[i] == xs[i];
      }
      DedupOfDistinct(init);
      assert xs == init + [last];
    }
  }

  /** Index of the first occurrence of `x` in `xs`. */
  function FirstIndex<T(==)>(xs: seq<T>, x: T): (i: nat)
    requires x in xs
    ensures i < |xs| && xs[i] == x && x !in xs[..i]
  {
    if xs[0] == x then 0 else 1 + FirstIndex(xs[1..], x)
  }

  lemma FirstIndexPrefix<T>(xs: seq<T>, n: nat, x: T)
    requires n <= |xs| && x in xs[..n]
    ensures FirstIndex(xs, x) == FirstIndex(xs[..n], x)
  {
    var i, j := FirstIndex(xs, x), FirstIndex(xs[..n], x);
    assert xs[..n][..j] == xs[..j];
    assert xs[j] == x;
  }

  /** The kept values appear in the order of their first occurrences. */
  lemma {:induction false} DedupOrdersByFirstOccurrence<T>(xs: seq<T>)
    ensures forall x :: x in Dedup(xs) ==> x in xs
    ensures forall i, j :: 0 <= i < j < |Dedup(xs)| ==>
              FirstIndex(xs, Dedup(xs)[i]) < FirstIndex(xs, Dedup(xs)[j])
  {
    DedupSameElements(xs);
    if |xs| > 0 {
      var init, last := xs[..|xs| - 1], xs[|xs| - 1];
      var d := Dedup(init);
      DedupOrdersByFirstOccurrence(init);
      DedupSameElements(init);
      assert xs[..|xs| - 1] == init;
      forall y | y in d ensures FirstIndex(xs, y) == FirstIndex(init, y) {
        FirstIndexPrefix(xs, |xs| - 1, y);
      }
      if last !in init {
        assert Dedup(xs) == d + [last];
        assert FirstIndex(xs, last) == |xs| - 1;
        forall i, j | 0 <= i < j < |Dedup(xs)|
          ensures FirstIndex(xs, Dedup(xs)[i]) < FirstIndex(xs, Dedup(xs)[j])
        {
          assert Dedup(xs)[i] == d[i];
          if j < |d| {
            assert Dedup(xs)[j] == d[j];
          }
        }
      }
    }
  }
}
